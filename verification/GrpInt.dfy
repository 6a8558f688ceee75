/** `struct grpintnode` on the heap: src/grpint.c and `handle_downstream_subscription` of
    src/mld2_logic.c, proved equal to module Mld2. */
module GrpInt {
  import opened LinkedList
  import opened Sources
  import opened SourceLists
  import opened Mld2

  /** `mld_send_mquery`: one query per source. */
  method SendMQuery(l: SrcList) returns (q: seq<Query>)
    requires l.Valid()
    ensures q == Ask(View(l.contents))
  {
    q := [];
    var ln := l.head;
    ghost var i: nat := 0;
    ghost var d := l.contents;
    WholeView(d);
    Start(l);
    while ln != null
      invariant i <= |d| && ln == At(l.nodes, i) && q == Ask(View(d[..i]))
      decreases |d| - i
    {
      Cursor(l, ln, i);
      ViewStep(d, i);
      if ln.data.Some? {
        q := q + [AskSource(ln.data.value.addr)];
      }
      ln := ln.next;
      i := i + 1;
    }
    Cursor(l, ln, i);
  }

  class GrpIntNode {
    const ifindex: int
    var includes: SrcList
    var excludes: SrcList
    var filterMode: Mode
    var filterTimer: int
    ghost var Repr: set<object>

    /** The two lists are sound, and `Repr` is what the record owns. */
    ghost predicate Valid()
      reads this, Repr
    {
      && {this, includes, excludes} <= Repr && includes.Repr <= Repr && excludes.Repr <= Repr
      && Parts()
      && Repr == {this, includes, excludes} + includes.Repr + excludes.Repr
    }

    ghost predicate Parts()
      reads this, includes, includes.Repr, excludes, excludes.Repr
    {
      && includes.Valid() && excludes.Valid()
      && includes != excludes && includes.Repr !! excludes.Repr
      && Nulls(excludes.contents) == 0
    }

    /** The value of the record. */
    ghost function Value(): Record
      reads this, includes, excludes
    {
      Record(ifindex, filterMode, View(includes.contents), Nulls(includes.contents), View(excludes.contents), filterTimer)
    }

    /** The record is sound and has value `v`. */
    ghost predicate Is(v: Record)
      reads this, Repr
    {
      Valid() && Value() == v
    }

    ghost predicate Apart(l: SrcList)
      reads this, includes, excludes, l
    {
      l != includes && l != excludes && l.Repr !! includes.Repr && l.Repr !! excludes.Repr
    }

    /** `grpint_create`; `heap` is what malloc left in `filter_timer`. */
    constructor (ifindex: int, heap: int)
      ensures Is(Fresh(ifindex, heap)) && this in Repr && fresh(Repr)
    {
      this.ifindex := ifindex;
      filterMode, filterTimer := Include, heap;
      includes := new List<Option<Source>>();
      excludes := new List<Option<Source>>();
      new;
      Repr := {this, includes, excludes} + includes.Repr + excludes.Repr;
    }

    /** The part of both TO_IN rows that concerns the sources no longer asked for: a query
        each, and their timers in the new list. */
    method QueryRest(tmp: SrcList, b: SrcList, now: int) returns (q: seq<Query>)
      requires Parts() && b.Valid() && tmp.Valid() && Apart(tmp) && tmp != b && tmp.Repr !! b.Repr
      modifies tmp`contents, tmp.Repr`data
      ensures tmp.Valid() && Nulls(tmp.contents) == old(Nulls(tmp.contents))
      ensures var rest := Difference(View(includes.contents), View(b.contents));
              q == Ask(rest) && View(tmp.contents) == SetTimers(old(View(tmp.contents)), Addrs(rest), now + LLQI)
    {
      hide View, Nulls, Addrs, Difference, SetTimers, Ask, List.Valid;
      var rest := ListDifference(includes, b);
      q := SendMQuery(rest);
      SetSourceTimers(tmp, rest, now + LLQI);
    }

    /** INCLUDE record, IS_IN, ALLOW or TO_IN (src/mld2_logic.c:129-144). */
    method IncludeOnInclude(t: RecType, b: SrcList, now: int) returns (q: seq<Query>)
      requires Parts() && b.Valid() && Apart(b) && filterMode == Include && t in {IsIn, Allow, ToIn}
      modifies this
      ensures Parts() && Value() == FromInclude(old(Value()), t, View(b.contents), now)
      ensures q == Queries(old(Value()), t, View(b.contents))
      ensures fresh(includes) && fresh(includes.Repr) && excludes == old(excludes)
    {
      hide View, Nulls, Addrs, Union, Difference, Intersect, RemoveAll, SetTimers, Ask, List.Valid;
      q := [];
      var tmp := ListUnion(includes, b);
      SetSourceTimers(tmp, b, now + MALI);
      if t == ToIn {
        q := QueryRest(tmp, b, now);
      }
      includes := tmp;
    }

    /** INCLUDE record, IS_EX or TO_EX (src/mld2_logic.c:146-178). */
    method ExcludeOnInclude(t: RecType, b: SrcList, now: int) returns (q: seq<Query>)
      requires Parts() && b.Valid() && Apart(b) && filterMode == Include && t in {IsEx, ToEx}
      modifies this
      ensures Parts() && Value() == FromInclude(old(Value()), t, View(b.contents), now)
      ensures q == Queries(old(Value()), t, View(b.contents))
      ensures fresh(includes) && fresh(includes.Repr) && fresh(excludes) && fresh(excludes.Repr)
    {
      hide View, Nulls, Addrs, Union, Difference, Intersect, RemoveAll, SetTimers, Ask, List.Valid;
      q := [];
      var aJoinB := ListIntersect(includes, b);
      var bMinusA := ListDifference(b, includes);
      SplitLists(b, aJoinB, bMinusA);
      SetSourceTimers(includes, bMinusA, 0);
      filterTimer := now + MALI;
      if t == ToEx {
        q := SendMQuery(aJoinB);
        SetSourceTimers(includes, aJoinB, now + LLQI);
      }
      filterMode := Exclude;
    }

    /** Lines 152 to 159: the two lists of the new EXCLUDE record. */
    method SplitLists(b: SrcList, aJoinB: SrcList, bMinusA: SrcList)
      requires Parts() && b.Valid() && aJoinB.Valid() && bMinusA.Valid()
      modifies `includes, `excludes
      ensures fresh(includes) && fresh(includes.Repr) && fresh(excludes) && fresh(excludes.Repr)
      ensures Parts() && Nulls(includes.contents) == 0
      ensures var aMinusB := Difference(old(View(includes.contents)), View(b.contents));
              && View(includes.contents) == Difference(View(aJoinB.contents), aMinusB)
              && View(excludes.contents) == Difference(View(bMinusA.contents), aMinusB)
    {
      hide View, Nulls, Addrs, Union, Difference, Intersect, RemoveAll, SetTimers, Ask, List.Valid;
      var aMinusB := ListDifference(includes, b);
      includes := ListDifference(aJoinB, aMinusB);
      excludes := ListDifference(bMinusA, aMinusB);
    }

    /** INCLUDE record, BLOCK (src/mld2_logic.c:180-190). */
    method BlockOnInclude(b: SrcList, now: int) returns (q: seq<Query>)
      requires Parts() && b.Valid() && Apart(b) && filterMode == Include
      modifies includes`contents, includes.Repr`data
      ensures Parts() && Value() == FromInclude(old(Value()), Block, View(b.contents), now)
      ensures q == Queries(old(Value()), Block, View(b.contents))
    {
      hide View, Nulls, Addrs, Union, Difference, Intersect, RemoveAll, SetTimers, Ask, List.Valid;
      var aIntersectB := ListIntersect(includes, b);
      q := SendMQuery(aIntersectB);
      SetSourceTimers(includes, aIntersectB, now + LLQI);
    }

    /** EXCLUDE record, IS_IN, ALLOW or TO_IN (src/mld2_logic.c:192-212); D1 and D2. */
    method IncludeOnExclude(t: RecType, a: SrcList, now: int) returns (q: seq<Query>)
      requires Parts() && a.Valid() && Apart(a) && filterMode == Exclude && t in {IsIn, Allow, ToIn}
      modifies this
      ensures Parts() && Value() == FromExclude(old(Value()), t, View(a.contents), now)
      ensures q == Queries(old(Value()), t, View(a.contents))
      ensures fresh(includes) && fresh(includes.Repr) && fresh(excludes) && fresh(excludes.Repr)
    {
      hide View, Nulls, Addrs, Union, Difference, Intersect, RemoveAll, SetTimers, Ask, List.Valid;
      q := [];
      var xPlusA := ListUnion(includes, a);
      var yMinusA := ListIntersect(excludes, a);
      SetSourceTimers(xPlusA, null, now + MALI);
      if t == ToIn {
        q := QueryRest(xPlusA, a, now);
        q := q + [AskGroup];
        filterTimer := now + LLQI;
      }
      includes := xPlusA;
      excludes := yMinusA;
    }

    /** EXCLUDE record, IS_EX or TO_EX (src/mld2_logic.c:214-251); D3. */
    method ExcludeOnExclude(t: RecType, a: SrcList, now: int) returns (q: seq<Query>)
      requires Parts() && a.Valid() && Apart(a) && filterMode == Exclude && t in {IsEx, ToEx}
      modifies this, includes, includes.Repr, excludes, excludes.Repr
      ensures Parts() && Value() == FromExclude(old(Value()), t, View(a.contents), now)
      ensures q == Queries(old(Value()), t, View(a.contents))
      ensures includes == old(includes) && includes.Repr == old(includes.Repr)
      ensures excludes == old(excludes) && excludes.Repr == old(excludes.Repr)
    {
      hide View, Nulls, Addrs, Union, Difference, Intersect, RemoveAll, SetTimers, Ask, List.Valid;
      var aMinusY := ListDifference(a, excludes);
      var yIntersectA := ListIntersect(excludes, a);
      var aMinXminY := ListDifference(aMinusY, includes);
      DeleteUnasked(a);
      q := Retime(t, aMinXminY, aMinusY, now);
    }

    /** Lines 222 to 230: delete X-A and Y-A, each from both lists. */
    method DeleteUnasked(a: SrcList)
      requires Parts() && a.Valid() && Apart(a)
      modifies includes, includes.Repr`next, includes.Repr`prev, excludes, excludes.Repr`next, excludes.Repr`prev
      ensures Parts() && includes.Repr == old(includes.Repr) && excludes.Repr == old(excludes.Repr)
      ensures Nulls(includes.contents) == old(Nulls(includes.contents))
      ensures var x, y := old(View(includes.contents)), old(View(excludes.contents));
              var xMinusA := Difference(x, View(a.contents));
              var yMinusA := Difference(RemoveAll(y, xMinusA), View(a.contents));
              && View(includes.contents) == RemoveAll(RemoveAll(x, xMinusA), yMinusA)
              && View(excludes.contents) == RemoveAll(RemoveAll(y, xMinusA), yMinusA)
    {
      hide View, Nulls, Addrs, Union, Difference, Intersect, RemoveAll, SetTimers, Ask, List.Valid;
      var xMinusA := ListDifference(includes, a);
      ListRemoveAll(includes, xMinusA);
      ListRemoveAll(excludes, xMinusA);
      var yMinusA := ListDifference(excludes, a);
      ListRemoveAll(includes, yMinusA);
      ListRemoveAll(excludes, yMinusA);
    }

    /** Lines 232 to 246: the timers, and the queries of TO_EX. */
    method Retime(t: RecType, aMinXminY: SrcList, aMinusY: SrcList, now: int) returns (q: seq<Query>)
      requires Parts() && aMinXminY.Valid() && Apart(aMinXminY) && aMinusY.Valid() && Apart(aMinusY)
      modifies `filterTimer, includes`contents, includes.Repr`data, excludes`contents, excludes.Repr`data
      ensures Parts() && filterTimer == now + MALI && Nulls(includes.contents) == old(Nulls(includes.contents))
      ensures var timer := if t == IsEx then now + MALI else old(filterTimer);
              var x := SetTimers(old(View(includes.contents)), Addrs(View(aMinXminY.contents)), timer);
              var y := SetTimers(old(View(excludes.contents)), Addrs(View(aMinXminY.contents)), timer);
              if t == IsEx then View(includes.contents) == x && View(excludes.contents) == y && q == []
              else && View(includes.contents) == SetTimers(x, Addrs(View(aMinusY.contents)), now + LLQI)
                   && View(excludes.contents) == SetTimers(y, Addrs(View(aMinusY.contents)), now + LLQI)
                   && q == Ask(View(aMinusY.contents))
    {
      hide View, Nulls, Addrs, Union, Difference, Intersect, RemoveAll, SetTimers, Ask, List.Valid;
      q := [];
      if t == IsEx {
        SetSourceTimers(includes, aMinXminY, now + MALI);
        SetSourceTimers(excludes, aMinXminY, now + MALI);
      } else {
        SetSourceTimers(includes, aMinXminY, filterTimer);
        SetSourceTimers(excludes, aMinXminY, filterTimer);
        q := SendMQuery(aMinusY);
        SetSourceTimers(includes, aMinusY, now + LLQI);
        SetSourceTimers(excludes, aMinusY, now + LLQI);
      }
      filterTimer := now + MALI;
    }

    /** EXCLUDE record, BLOCK (src/mld2_logic.c:253-271); D4. */
    method BlockOnExclude(a: SrcList, now: int) returns (q: seq<Query>)
      requires Parts() && a.Valid() && Apart(a) && filterMode == Exclude
      modifies includes, includes.Repr, excludes, excludes.Repr
      ensures Parts() && Value() == FromExclude(old(Value()), Block, View(a.contents), now)
      ensures q == Queries(old(Value()), Block, View(a.contents))
      ensures includes == old(includes) && fresh(includes.Repr - old(includes.Repr))
      ensures excludes == old(excludes) && excludes.Repr == old(excludes.Repr)
    {
      hide View, Nulls, Addrs, Union, Difference, Intersect, RemoveAll, SetTimers, Ask, List.Valid;
      var aMinusY := ListDifference(a, excludes);
      var aMinXminY := ListDifference(aMinusY, includes);
      ListAddAll(includes, aMinusY);
      SetSourceTimers(includes, aMinXminY, filterTimer);
      q := SendMQuery(aMinusY);
      SetSourceTimers(includes, aMinusY, now + LLQI);
      SetSourceTimers(excludes, aMinusY, now + LLQI);
    }

    /** The case distinction of `handle_downstream_subscription`. */
    method Dispatch(t: RecType, b: SrcList, now: int) returns (q: seq<Query>)
      requires Parts() && b.Valid() && Apart(b)
      modifies this, includes, includes.Repr, excludes, excludes.Repr
      ensures Parts() && Value() == Handle(old(Value()), t, View(b.contents), now)
      ensures q == Queries(old(Value()), t, View(b.contents))
      ensures (includes == old(includes) && fresh(includes.Repr - old(includes.Repr))) || (fresh(includes) && fresh(includes.Repr))
      ensures (excludes == old(excludes) && excludes.Repr == old(excludes.Repr)) || (fresh(excludes) && fresh(excludes.Repr))
    {
      hide View, Nulls, Addrs, Union, Difference, Intersect, RemoveAll, SetTimers, Ask, List.Valid;
      if filterMode == Include {
        if t == IsIn || t == Allow || t == ToIn {
          q := IncludeOnInclude(t, b, now);
        } else if t == IsEx || t == ToEx {
          q := ExcludeOnInclude(t, b, now);
        } else {
          q := BlockOnInclude(b, now);
        }
      } else {
        if t == IsIn || t == Allow || t == ToIn {
          q := IncludeOnExclude(t, b, now);
        } else if t == IsEx || t == ToEx {
          q := ExcludeOnExclude(t, b, now);
        } else {
          q := BlockOnExclude(b, now);
        }
      }
    }

    /** `handle_downstream_subscription` once `groupint_get` has found the record. */
    method HandleReport(t: RecType, b: SrcList, now: int) returns (q: seq<Query>)
      requires Valid() && b.Valid() && b !in Repr && b.Repr !! Repr
      modifies Repr
      ensures Is(Handle(old(Value()), t, View(b.contents), now)) && this in Repr && fresh(Repr - old(Repr))
      ensures q == Queries(old(Value()), t, View(b.contents))
    {
      hide Handle, Queries, View, List.Valid;
      q := Dispatch(t, b, now);
      Repr := {this, includes, excludes} + includes.Repr + excludes.Repr;
    }

    /** The body of `check_route` for a record of the interface; None goes on with the loop. */
    method Verdict(s: Addr, now: int) returns (v: Option<bool>)
      requires Valid()
      ensures var r := Value();
              v == if r.mode == Include then
                     if NoIncludes(r) then Some(false) else if s in Addrs(r.includes) then Some(true) else None
                   else Some(r.filterTimer > now && s !in Addrs(r.excludes))
    {
      hide View, Nulls, Addrs;
      Start(includes);
      ViewLength(includes.contents);
      if filterMode == Include {
        if includes.IsEmpty() {
          return Some(false);
        }
        var src, _ := HasMember(includes, s);
        return if src.Some? then Some(true) else None;
      }
      if filterTimer <= now {
        return Some(false);
      }
      var blocked := IsBlocked(s);
      return Some(!blocked);
    }

    /** `(!list_isempty(excludes)) && list_hasmember(excludes, s)`. */
    method IsBlocked(s: Addr) returns (blocked: bool)
      requires Valid()
      ensures blocked <==> s in Addrs(Value().excludes)
    {
      hide Nulls;
      Start(excludes);
      ViewLength(excludes.contents);
      blocked := false;
      if !excludes.IsEmpty() {
        var src, _ := HasMember(excludes, s);
        blocked := src.Some?;
      }
    }

    // -------------------------------------------------------------- expiry

    /** `loop_source` of `expire_sources` on this record; `emptied` says that a deletion left
        the list empty, so that the record is to go. */
    method ExpireIncludes(now: int) returns (emptied: bool)
      requires Valid() && filterMode == Include
      modifies Repr
      ensures Is(old(Value()).(includes := Unexpired(old(Value()).includes, now))) && Repr == old(Repr)
      ensures emptied <==> Sweep(old(Value()), now).None?
    {
      hide View, Nulls, Unexpired, List.Valid;
      ViewLength(includes.contents);
      emptied := ExpireList(includes, now);
      ViewLength(includes.contents);
    }

    /** `list_hasmember` for the source of a packet, then `expire_source` on what it found. */
    method ExpireMember(s: Addr, now: int) returns (found: bool, emptied: bool)
      requires Valid() && filterMode == Include
      modifies Repr
      ensures Repr == old(Repr) && (found <==> s in Addrs(old(Value()).includes))
      ensures !found ==> Is(old(Value()))
      ensures found ==> Is(WithoutExpired(old(Value()), s, now)) && (emptied <==> ExpireOne(old(Value()), s, now).None?)
    {
      hide View, Nulls, Addrs, Find, RemoveFirst, List.Valid;
      found, emptied := false, false;
      var src, k := HasMember(includes, s);
      if src.Some? {
        FindHit(includes.contents, s, k);
        DeleteHit(includes.contents, s, k);
        found := true;
        emptied := ExpireNode(includes, src, k, now);
        ViewLength(includes.contents);
      }
    }

    /** `grpintn->filter_mode = MLD2_MODE_IS_INCLUDE`, and whether the include list is empty. */
    method SwitchToInclude() returns (empty: bool)
      requires Valid() && filterMode == Exclude
      modifies Repr
      ensures Is(old(Value()).(mode := Include)) && Repr == old(Repr)
      ensures empty <==> NoIncludes(old(Value()))
    {
      hide View, Nulls;
      filterMode := Include;
      Start(includes);
      ViewLength(includes.contents);
      empty := includes.IsEmpty();
    }
  }

  lemma {:induction false} FindAround(p: seq<Source>, x: Source, q: seq<Source>)
    requires x.addr !in Addrs(p)
    ensures x.addr in Addrs(p + [x] + q) && Find(p + [x] + q, x.addr) == x
  {
    AddrsAppend(p + [x], q);
    AddrsAppend(p, [x]);
    assert [x][0] in [x];
    if p != [] {
      AddrsCons(p);
      assert (p + [x] + q)[1..] == p[1..] + [x] + q;
      FindAround(p[1..], x, q);
    }
  }

  /** The element `list_hasmember` returns is the first one with the address. */
  lemma FindHit(d: seq<Option<Source>>, a: Addr, k: nat)
    requires Hit(d, a, k)
    ensures a in Addrs(View(d)) && Find(View(d), a) == d[k].value
  {
    var p, q := d[..k], d[k + 1..];
    assert d == p + [d[k]] + q;
    ViewAround(p, d[k], q);
    BeforeHit(p, a);
    FindAround(View(p), d[k].value, View(q));
  }
}
