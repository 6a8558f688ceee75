/** The list_* operations of src/linklist.c on heap lists of `struct msrc`, each proved to
    compute the operation of the same name in module Sources.

    A `struct msrc` belongs to one list node for its whole life (lists exchange copies), so
    it is the value stored in the node; a node whose data pointer is NULL holds None. */
module SourceLists {
  import opened LinkedList
  import opened Sources

  type SrcList = List<Option<Source>>

  /** What LIST_LOOP sees of one node. */
  function One(x: Option<Source>): seq<Source> {
    if x.Some? then [x.value] else []
  }

  /** The sources LIST_LOOP visits, in order. */
  function View(d: seq<Option<Source>>): seq<Source> {
    if d == [] then [] else View(d[..|d| - 1]) + One(d[|d| - 1])
  }

  function Nulls(d: seq<Option<Source>>): nat {
    if d == [] then 0 else Nulls(d[..|d| - 1]) + if d[|d| - 1].Some? then 0 else 1
  }

  lemma ViewAppend(d: seq<Option<Source>>, x: Option<Source>)
    ensures View(d + [x]) == View(d) + One(x)
    ensures Nulls(d + [x]) == Nulls(d) + if x.Some? then 0 else 1
  {
    assert (d + [x])[..|d|] == d;
  }

  /** One more step of a loop over `d`. */
  lemma ViewStep(d: seq<Option<Source>>, i: nat)
    requires i < |d|
    ensures View(d[..i + 1]) == View(d[..i]) + One(d[i])
  {
    assert d[..i + 1] == d[..i] + [d[i]];
    ViewAppend(d[..i], d[i]);
  }

  /** Where a loop over `d` starts and ends. */
  lemma WholeView(d: seq<Option<Source>>)
    ensures View(d[..0]) == [] && Nulls(d[..0]) == 0 && d[..|d|] == d
  {
  }

  /** What the loops have computed before the first round. */
  lemma NothingYet(l: seq<Source>, s: set<Addr>, inside: bool)
    ensures Select([], s, inside) == [] && AddNew(l, []) == l && RemoveAll(l, []) == l
    ensures View([]) == [] && Nulls([]) == 0
  {
  }

  lemma {:induction false} ViewHas(d: seq<Option<Source>>, i: nat)
    requires i < |d| && d[i].Some?
    ensures d[i].value in View(d)
  {
    if i < |d| - 1 {
      ViewHas(d[..|d| - 1], i);
    }
  }

  /** Where `list_hasmember` stops: at the first element with this address. */
  ghost predicate Hit(d: seq<Option<Source>>, a: Addr, k: nat) {
    && k < |d| && d[k].Some? && d[k].value.addr == a
    && forall j :: 0 <= j < k && d[j].Some? ==> d[j].value.addr != a
  }

  /** `list_hasmember`. */
  method HasMember(l: SrcList, a: Addr) returns (x: Option<Source>, ghost k: nat)
    requires l.Valid()
    ensures x.Some? <==> a in Addrs(View(l.contents))
    ensures x.Some? ==> Hit(l.contents, a, k) && x == l.contents[k]
  {
    ghost var d := l.contents;
    var ln := l.head;
    k := 0;
    WholeView(d);
    assert a !in Addrs(View(d[..0]));
    hide View;
    while ln != null
      invariant 0 <= k <= |d| && ln == At(l.nodes, k)
      invariant a !in Addrs(View(d[..k]))
      invariant forall j :: 0 <= j < k && d[j].Some? ==> d[j].value.addr != a
      decreases |d| - k
    {
      ViewStep(d, k);
      x := ln.data;
      AddrsAppend(View(d[..k]), One(x));
      if x.Some? {
        if x.value.addr == a {
          ViewHas(d, k);
          return;
        }
      }
      ln := ln.next;
      k := k + 1;
    }
    x := None;
  }

  /** `listnode_add` of a copy. */
  method AddCopy(l: SrcList, x: Source)
    requires l.Valid()
    modifies l, l.Repr`next
    ensures l.Valid() && fresh(l.Repr - old(l.Repr))
    ensures l.contents == old(l.contents) + [Some(x)]
    ensures View(l.contents) == old(View(l.contents)) + [x] && Nulls(l.contents) == old(Nulls(l.contents))
  {
    ViewAppend(l.contents, Some(x));
    l.Add(Some(x));
  }

  /** The loop body shared by `list_intersect` and `list_difference`. */
  method CopyIf(r: SrcList, x: Option<Source>, b: SrcList, inside: bool)
    requires r.Valid() && b.Valid()
    modifies r, r.Repr`next
    ensures r.Valid() && fresh(r.Repr - old(r.Repr))
    ensures Nulls(r.contents) == old(Nulls(r.contents))
    ensures View(r.contents) == old(View(r.contents)) +
              Select(One(x), old(Addrs(View(b.contents))), inside)
  {
    assert View(r.contents) + [] == View(r.contents);
    if x.Some? {
      var y, _ := HasMember(b, x.value.addr);
      if y.Some? == inside {
        AddCopy(r, x.value);
      }
    }
  }

  lemma SelectViewStep(d: seq<Option<Source>>, i: nat, s: set<Addr>, inside: bool)
    requires i < |d|
    ensures Select(View(d[..i + 1]), s, inside) == Select(View(d[..i]), s, inside) + Select(One(d[i]), s, inside)
  {
    ViewStep(d, i);
    SelectAppend(View(d[..i]), One(d[i]), s, inside);
  }

  /** The loop of `list_difference`, and the first loop of `list_intersect`. */
  method CopySelected(r: SrcList, a: SrcList, b: SrcList, inside: bool)
    requires r.Valid() && r.contents == [] && a.Valid() && b.Valid()
    requires r != a && r != b && r.Repr !! a.Repr && r.Repr !! b.Repr
    modifies r, r.Repr`next
    ensures r.Valid() && fresh(r.Repr - old(r.Repr)) && Nulls(r.contents) == 0
    ensures View(r.contents) == Select(View(a.contents), Addrs(View(b.contents)), inside)
  {
    hide View, Nulls, Addrs, Select, AddNew, RemoveAll, Swept, List.Valid;
    var ln := a.head;
    ghost var i: nat := 0;
    ghost var d, bs := a.contents, Addrs(View(b.contents));
    WholeView(d);
    NothingYet([], bs, inside);
    Start(a);
    while ln != null
      invariant i <= |d| && ln == At(a.nodes, i)
      invariant r.Valid() && fresh(r.Repr - old(r.Repr)) && Nulls(r.contents) == 0
      invariant View(r.contents) == Select(View(d[..i]), bs, inside)
      decreases |d| - i
    {
      Cursor(a, ln, i);
      SelectViewStep(d, i, bs, inside);
      CopyIf(r, ln.data, b, inside);
      ln := ln.next;
      i := i + 1;
    }
    Cursor(a, ln, i);
  }

  /** `list_difference`. */
  method ListDifference(a: SrcList, b: SrcList) returns (r: SrcList)
    requires a.Valid() && b.Valid()
    ensures fresh(r) && fresh(r.Repr) && r.Valid() && Nulls(r.contents) == 0
    ensures View(r.contents) == Difference(View(a.contents), View(b.contents))
  {
    hide View, Nulls, Addrs, Select, List.Valid;
    r := new List<Option<Source>>();
    CopySelected(r, a, b, false);
  }

  /** `list_intersect`.  The second loop looks for elements of `b` that `a` has and the
      result lacks; there are none. */
  method ListIntersect(a: SrcList, b: SrcList) returns (r: SrcList)
    requires a.Valid() && b.Valid()
    ensures fresh(r) && fresh(r.Repr) && r.Valid() && Nulls(r.contents) == 0
    ensures View(r.contents) == Intersect(View(a.contents), View(b.contents))
  {
    hide View, Nulls, Addrs, Select, AddNew, List.Valid;
    r := new List<Option<Source>>();
    CopySelected(r, a, b, true);
    SecondLoop(r, b, a);
    SecondLoopIdle(View(a.contents), View(b.contents));
  }

  method SecondLoop(r: SrcList, b: SrcList, a: SrcList)
    requires r.Valid() && a.Valid() && b.Valid() && Nulls(r.contents) == 0
    requires r != a && r != b && r.Repr !! a.Repr && r.Repr !! b.Repr
    modifies r, r.Repr`next
    ensures r.Valid() && fresh(r.Repr - old(r.Repr)) && Nulls(r.contents) == 0
    ensures View(r.contents) == AddNew(old(View(r.contents)), Select(View(b.contents), Addrs(View(a.contents)), true))
  {
    hide View, Nulls, Addrs, Select, AddNew, RemoveAll, Swept, List.Valid;
    ghost var first := View(r.contents);
    var ln := b.head;
    ghost var i: nat := 0;
    ghost var d, s := b.contents, Addrs(View(a.contents));
    WholeView(d);
    NothingYet(first, s, true);
    Start(b);
    while ln != null
      invariant i <= |d| && ln == At(b.nodes, i)
      invariant r.Valid() && fresh(r.Repr - old(r.Repr)) && Nulls(r.contents) == 0
      invariant View(r.contents) == AddNew(first, Select(View(d[..i]), s, true))
      decreases |d| - i
    {
      SelectViewStep(d, i, s, true);
      AddNewAppend(first, Select(View(d[..i]), s, true), Select(One(d[i]), s, true));
      Cursor(b, ln, i);
      AddIfBoth(r, ln.data, a);
      ln := ln.next;
      i := i + 1;
    }
    Cursor(b, ln, i);
  }

  /** The body of the second loop of `list_intersect`. */
  method AddIfBoth(r: SrcList, x: Option<Source>, a: SrcList)
    requires r.Valid() && a.Valid()
    modifies r, r.Repr`next
    ensures r.Valid() && fresh(r.Repr - old(r.Repr)) && Nulls(r.contents) == old(Nulls(r.contents))
    ensures View(r.contents) == AddNew(old(View(r.contents)), Select(One(x), old(Addrs(View(a.contents))), true))
  {
    if x.Some? {
      var y, _ := HasMember(a, x.value.addr);
      if y.Some? {
        AddIfAbsent(r, x);
      }
    }
  }

  /** The second loop of `list_union`, and `mrec_add_source`: add a copy unless present. */
  method AddIfAbsent(r: SrcList, x: Option<Source>)
    requires r.Valid()
    modifies r, r.Repr`next
    ensures r.Valid() && fresh(r.Repr - old(r.Repr)) && Nulls(r.contents) == old(Nulls(r.contents))
    ensures View(r.contents) == AddNew(old(View(r.contents)), One(x))
  {
    if x.Some? {
      var y, _ := HasMember(r, x.value.addr);
      if y.None? {
        AddCopy(r, x.value);
      }
    }
  }

  lemma SecondLoopIdle(a: seq<Source>, b: seq<Source>)
    ensures AddNew(Intersect(a, b), Select(b, Addrs(a), true)) == Intersect(a, b)
  {
    SelectAddrs(a, Addrs(b), true);
    SelectAddrs(b, Addrs(a), true);
    AddNewIdle(Intersect(a, b), Select(b, Addrs(a), true));
  }

  lemma {:induction false} AddNewIdle(a: seq<Source>, b: seq<Source>)
    requires Addrs(b) <= Addrs(a)
    ensures AddNew(a, b) == a
    decreases |b|
  {
    if b != [] {
      AddrsCons(b);
      AddNewIdle(a, b[1..]);
    }
  }

  /** `list_union`; its callers always pass a second list. */
  method ListUnion(a: SrcList, b: SrcList) returns (r: SrcList)
    requires a.Valid() && b.Valid()
    ensures fresh(r) && fresh(r.Repr) && r.Valid() && Nulls(r.contents) == 0
    ensures View(r.contents) == Union(View(a.contents), View(b.contents))
  {
    r := CopyList(a);
    AddAllAbsent(r, b);
  }

  /** The second loop of `list_union`. */
  method AddAllAbsent(r: SrcList, b: SrcList)
    requires r.Valid() && b.Valid() && r != b && r.Repr !! b.Repr && Nulls(r.contents) == 0
    modifies r, r.Repr`next
    ensures r.Valid() && fresh(r.Repr - old(r.Repr)) && Nulls(r.contents) == 0
    ensures View(r.contents) == AddNew(old(View(r.contents)), View(b.contents))
  {
    hide View, Nulls, Addrs, Select, AddNew, RemoveAll, Swept, List.Valid;
    ghost var first := View(r.contents);
    var ln := b.head;
    ghost var i: nat := 0;
    ghost var d := b.contents;
    WholeView(d);
    NothingYet(first, {}, true);
    Start(b);
    while ln != null
      invariant i <= |d| && ln == At(b.nodes, i)
      invariant r.Valid() && fresh(r.Repr - old(r.Repr)) && Nulls(r.contents) == 0
      invariant View(r.contents) == AddNew(first, View(d[..i]))
      decreases |d| - i
    {
      UnionViewStep(first, d, i);
      Cursor(b, ln, i);
      AddIfAbsent(r, ln.data);
      ln := ln.next;
      i := i + 1;
    }
    Cursor(b, ln, i);
  }

  lemma UnionViewStep(a: seq<Source>, d: seq<Option<Source>>, i: nat)
    requires i < |d|
    ensures AddNew(a, View(d[..i + 1])) == AddNew(AddNew(a, View(d[..i])), One(d[i]))
  {
    ViewStep(d, i);
    AddNewAppend(a, View(d[..i]), One(d[i]));
  }

  /** The first loop of `list_union`, which is all of it when the second list is NULL. */
  method CopyList(a: SrcList) returns (r: SrcList)
    requires a.Valid()
    ensures fresh(r) && fresh(r.Repr) && r.Valid() && Nulls(r.contents) == 0
    ensures View(r.contents) == View(a.contents)
  {
    hide View, Nulls, Addrs, Select, AddNew, RemoveAll, Swept, List.Valid;
    r := new List<Option<Source>>();
    var ln := a.head;
    ghost var i: nat := 0;
    ghost var d := a.contents;
    WholeView(d);
    NothingYet([], {}, true);
    Start(a);
    while ln != null
      invariant i <= |d| && ln == At(a.nodes, i)
      invariant fresh(r) && fresh(r.Repr) && r.Valid() && Nulls(r.contents) == 0
      invariant View(r.contents) == View(d[..i])
      decreases |d| - i
    {
      ViewStep(d, i);
      Cursor(a, ln, i);
      assert View(r.contents) + [] == View(r.contents);
      if ln.data.Some? {
        AddCopy(r, ln.data.value);
      }
      ln := ln.next;
      i := i + 1;
    }
    Cursor(a, ln, i);
  }

  // ---------------------------------------------------------------- in place

  lemma {:induction false} ViewConcat(d: seq<Option<Source>>, e: seq<Option<Source>>)
    ensures View(d + e) == View(d) + View(e) && Nulls(d + e) == Nulls(d) + Nulls(e)
  {
    if e == [] {
      assert d + e == d;
    } else {
      var init := e[..|e| - 1];
      assert (d + e)[..|d + e| - 1] == d + init;
      ViewConcat(d, init);
    }
  }

  lemma ViewAround(p: seq<Option<Source>>, x: Option<Source>, q: seq<Option<Source>>)
    ensures View(p + [x] + q) == View(p) + One(x) + View(q) && View(p + q) == View(p) + View(q)
    ensures Nulls(p + [x] + q) == Nulls(p + q) + if x.Some? then 0 else 1
  {
    ViewConcat(p + [x], q);
    ViewAppend(p, x);
    ViewConcat(p, q);
  }

  lemma {:induction false} RemoveFirstAround(p: seq<Source>, x: Source, q: seq<Source>)
    requires x.addr !in Addrs(p)
    ensures RemoveFirst(p + [x] + q, x.addr) == p + q
  {
    if p == [] {
      assert p + [x] + q == [x] + q && p + q == q;
    } else {
      AddrsCons(p);
      RemoveFirstAround(p[1..], x, q);
      assert (p + [x] + q)[1..] == p[1..] + [x] + q;
      assert [p[0]] + (p[1..] + q) == p + q;
    }
  }

  lemma {:induction false} BeforeHit(d: seq<Option<Source>>, a: Addr)
    requires forall j :: 0 <= j < |d| && d[j].Some? ==> d[j].value.addr != a
    ensures a !in Addrs(View(d))
  {
    if d != [] {
      BeforeHit(d[..|d| - 1], a);
      AddrsAppend(View(d[..|d| - 1]), One(d[|d| - 1]));
    }
  }

  /** Deleting the element `list_hasmember` found. */
  lemma DeleteHit(d: seq<Option<Source>>, a: Addr, k: nat)
    requires Hit(d, a, k)
    ensures FirstAt(d, d[k]) == k
    ensures View(Without(d, k)) == RemoveFirst(View(d), a) && Nulls(Without(d, k)) == Nulls(d)
  {
    FirstAtIs(d, d[k], k);
    var p, q := d[..k], d[k + 1..];
    assert d == p + [d[k]] + q && Without(d, k) == p + q;
    ViewAround(p, d[k], q);
    BeforeHit(p, a);
    RemoveFirstAround(View(p), d[k].value, View(q));
  }

  /** `list_hasmember` followed by `listnode_delete`, the body of `list_remove_all`. */
  method DeleteMember(a: SrcList, x: Option<Source>)
    requires a.Valid()
    modifies a, a.Repr`next, a.Repr`prev
    ensures a.Valid() && a.Repr == old(a.Repr) && Nulls(a.contents) == old(Nulls(a.contents))
    ensures View(a.contents) == RemoveAll(old(View(a.contents)), One(x))
  {
    if x.Some? {
      RemoveAllOne(View(a.contents), x.value);
      var y, k := HasMember(a, x.value.addr);
      if y.Some? {
        DeleteHit(a.contents, x.value.addr, k);
        a.Delete(y);
      } else {
        RemoveFirstAbsent(View(a.contents), x.value.addr);
      }
    }
  }

  lemma RemoveAllOne(l: seq<Source>, x: Source)
    ensures RemoveAll(l, [x]) == RemoveFirst(l, x.addr)
  {
    assert [x][1..] == [];
  }

  lemma {:induction false} RemoveFirstAbsent(l: seq<Source>, a: Addr)
    requires a !in Addrs(l)
    ensures RemoveFirst(l, a) == l
  {
    if l != [] {
      AddrsCons(l);
      RemoveFirstAbsent(l[1..], a);
    }
  }

  lemma {:induction false} RemoveAllAppend(a: seq<Source>, b: seq<Source>, c: seq<Source>)
    ensures RemoveAll(a, b + c) == RemoveAll(RemoveAll(a, b), c)
    decreases |b|
  {
    if b == [] {
      assert b + c == c;
    } else {
      assert (b + c)[1..] == b[1..] + c;
      RemoveAllAppend(RemoveFirst(a, b[0].addr), b[1..], c);
    }
  }

  /** `list_remove_all`. */
  method ListRemoveAll(a: SrcList, b: SrcList)
    requires a.Valid() && b.Valid() && a != b && a.Repr !! b.Repr
    modifies a, a.Repr`next, a.Repr`prev
    ensures a.Valid() && a.Repr == old(a.Repr) && Nulls(a.contents) == old(Nulls(a.contents))
    ensures View(a.contents) == RemoveAll(old(View(a.contents)), View(b.contents))
  {
    hide View, Nulls, Addrs, Select, AddNew, RemoveAll, Swept, List.Valid;
    ghost var first := View(a.contents);
    var ln := b.head;
    ghost var i: nat := 0;
    ghost var d := b.contents;
    WholeView(d);
    NothingYet(first, {}, true);
    Start(b);
    while ln != null
      invariant i <= |d| && ln == At(b.nodes, i)
      invariant a.Valid() && a.Repr == old(a.Repr) && Nulls(a.contents) == old(Nulls(a.contents))
      invariant View(a.contents) == RemoveAll(first, View(d[..i]))
      decreases |d| - i
    {
      ViewStep(d, i);
      RemoveAllAppend(first, View(d[..i]), One(d[i]));
      Cursor(b, ln, i);
      DeleteMember(a, ln.data);
      ln := ln.next;
      i := i + 1;
    }
    Cursor(b, ln, i);
  }

  /** `list_add_all`, with D4: `element` is NULL by the time it is added. */
  method ListAddAll(a: SrcList, b: SrcList)
    requires a.Valid() && b.Valid() && a != b && a.Repr !! b.Repr
    modifies a, a.Repr`next
    ensures a.Valid() && fresh(a.Repr - old(a.Repr))
    ensures View(a.contents) == old(View(a.contents))
    ensures Nulls(a.contents) == old(Nulls(a.contents)) + |Difference(View(b.contents), old(View(a.contents)))|
  {
    hide View, Nulls, Addrs, Select, AddNew, RemoveAll, Swept, List.Valid;
    ghost var s := Addrs(View(a.contents));
    var ln := b.head;
    ghost var i: nat := 0;
    ghost var d := b.contents;
    WholeView(d);
    NothingYet([], s, false);
    Start(b);
    while ln != null
      invariant i <= |d| && ln == At(b.nodes, i)
      invariant a.Valid() && fresh(a.Repr - old(a.Repr))
      invariant View(a.contents) == old(View(a.contents))
      invariant Nulls(a.contents) == old(Nulls(a.contents)) + |Select(View(d[..i]), s, false)|
      decreases |d| - i
    {
      SelectViewStep(d, i, s, false);
      Cursor(b, ln, i);
      AddNull(a, ln.data);
      ln := ln.next;
      i := i + 1;
    }
    Cursor(b, ln, i);
  }

  method AddNull(a: SrcList, x: Option<Source>)
    requires a.Valid()
    modifies a, a.Repr`next
    ensures a.Valid() && fresh(a.Repr - old(a.Repr)) && View(a.contents) == old(View(a.contents))
    ensures Nulls(a.contents) == old(Nulls(a.contents)) + |Select(One(x), old(Addrs(View(a.contents))), false)|
  {
    if x.Some? {
      var element, _ := HasMember(a, x.value.addr);
      if element.None? {
        ViewAppend(a.contents, element);
        a.Add(element);
      }
    }
  }

  // ---------------------------------------------------------------- timers

  function Timed(x: Option<Source>, s: set<Addr>, v: int): Option<Source> {
    if x.Some? && x.value.addr in s then Some(x.value.(timer := v)) else x
  }

  lemma {:induction false} ViewTimed(d: seq<Option<Source>>, e: seq<Option<Source>>, s: set<Addr>, v: int)
    requires |d| == |e| && forall j :: 0 <= j < |d| ==> e[j] == Timed(d[j], s, v)
    ensures View(e) == SetTimers(View(d), s, v) && Nulls(e) == Nulls(d)
  {
    if d != [] {
      var n := |d| - 1;
      ViewTimed(d[..n], e[..n], s, v);
      var rest, one := SetTimers(View(d[..n]), s, v), SetTimers(One(d[n]), s, v);
      assert View(e) == rest + one;
      assert SetTimers(View(d[..n]) + One(d[n]), s, v) == rest + one;
    }
  }

  /** `set_source_timers`; `which` may be NULL, for all sources. */
  method SetSourceTimers(l: SrcList, which: List?<Option<Source>>, v: int)
    requires l.Valid() && which != l && (which != null ==> which.Valid() && l.Repr !! which.Repr)
    modifies l`contents, l.Repr`data
    ensures l.Valid() && Nulls(l.contents) == old(Nulls(l.contents))
    ensures View(l.contents) ==
            SetTimers(old(View(l.contents)), if which == null then Addrs(old(View(l.contents))) else Addrs(View(which.contents)), v)
  {
    ghost var d := l.contents;
    ghost var s := if which == null then Addrs(View(d)) else Addrs(View(which.contents));
    var ln := l.head;
    ghost var i: nat := 0;
    while ln != null
      invariant 0 <= i <= |d| == |l.contents| && ln == At(l.nodes, i)
      invariant l.Valid()
      invariant forall j :: 0 <= j < i ==> l.contents[j] == Timed(d[j], s, v)
      invariant forall j :: i <= j < |d| ==> l.contents[j] == d[j]
      decreases |d| - i
    {
      assert ln.next == At(l.nodes, i + 1) && ln.data == d[i];
      if ln.data.Some? {
        var member := which == null;
        if which != null {
          var x, _ := HasMember(which, ln.data.value.addr);
          member := x.Some?;
        } else {
          ViewHas(d, i);
        }
        if member {
          SetTimer(l, ln, i, v);
        }
      }
      ln := ln.next;
      i := i + 1;
    }
    assert i == |d|;
    ViewTimed(d, l.contents, s, v);
  }

  /** `source->timer = v`. */
  method SetTimer(l: SrcList, ln: Node<Option<Source>>, ghost i: nat, v: int)
    requires l.Valid() && i < |l.nodes| && l.nodes[i] == ln && ln.data.Some?
    modifies l`contents, ln`data
    ensures l.Valid() && l.contents == old(l.contents)[i := Some(old(ln.data).value.(timer := v))]
  {
    ln.data := Some(ln.data.value.(timer := v));
    l.contents := l.contents[i := ln.data];
  }

  // ---------------------------------------------------------------- the sweep over one list

  predicate Expired(x: Option<Source>, now: int) {
    x.Some? && x.value.timer <= now
  }

  ghost predicate AllRun(d: seq<Option<Source>>, now: int) {
    forall j :: 0 <= j < |d| && d[j].Some? ==> d[j].value.timer > now
  }

  /** The loop has visited `d[..j]` and kept `c[..i]` of it. */
  ghost predicate Swept(d: seq<Option<Source>>, j: nat, c: seq<Option<Source>>, i: nat, now: int) {
    && i <= |c| && i <= j <= |d| && c[i..] == d[j..] && AllRun(c[..i], now)
    && View(c[..i]) == Unexpired(View(d[..j]), now) && Nulls(c[..i]) == Nulls(d[..j])
  }

  lemma SweptStep(d: seq<Option<Source>>, j: nat, c: seq<Option<Source>>, i: nat, now: int)
    requires i < |c| && Swept(d, j, c, i, now)
    ensures j < |d| && c[i] == d[j] && AllRun(c[..i], now)
    ensures if Expired(c[i], now) then Swept(d, j + 1, Without(c, i), i, now)
            else Swept(d, j + 1, c, i + 1, now)
  {
    hide View, Nulls, Unexpired;
    assert c[i..][0] == d[j..][0] && c[i..][1..] == d[j..][1..];
    assert c[i + 1..] == c[i..][1..] && d[j + 1..] == d[j..][1..];
    assert d[..j + 1] == d[..j] + [d[j]] && c[..i + 1] == c[..i] + [c[i]];
    var w := Without(c, i);
    assert w[..i] == c[..i] && w[i..] == c[i + 1..];
    SweptViews(d[..j], c[..i], d[j], now);
  }

  lemma SweptViews(p: seq<Option<Source>>, q: seq<Option<Source>>, x: Option<Source>, now: int)
    requires View(q) == Unexpired(View(p), now) && Nulls(q) == Nulls(p)
    ensures if Expired(x, now) then View(q) == Unexpired(View(p + [x]), now) && Nulls(q) == Nulls(p + [x])
            else View(q + [x]) == Unexpired(View(p + [x]), now) && Nulls(q + [x]) == Nulls(p + [x])
  {
    ViewAppend(p, x);
    ViewAppend(q, x);
    UnexpiredAppend(View(p), One(x), now);
  }

  lemma SweptAll(d: seq<Option<Source>>, j: nat, c: seq<Option<Source>>, i: nat, now: int)
    requires Swept(d, j, c, i, now) && i == |c|
    ensures View(c) == Unexpired(View(d), now) && Nulls(c) == Nulls(d)
  {
    assert |c[i..]| == 0 && |d[j..]| == 0;
    assert c[..i] == c && d[..j] == d;
  }

  lemma ViewLength(d: seq<Option<Source>>)
    ensures |d| == |View(d)| + Nulls(d)
  {
  }

  /** `expire_source` as far as the list goes: delete an expired source, and say whether
      that left the list empty. */
  method ExpireNode(l: SrcList, x: Option<Source>, ghost i: nat, now: int) returns (emptied: bool)
    requires l.Valid() && i < |l.contents| && l.contents[i] == x
    requires Expired(x, now) ==> forall j :: 0 <= j < i ==> l.contents[j] != x
    modifies l, l.Repr`next, l.Repr`prev
    ensures l.Valid() && l.Repr == old(l.Repr)
    ensures Expired(x, now) ==> l.nodes == Without(old(l.nodes), i) && l.contents == Without(old(l.contents), i)
    ensures !Expired(x, now) ==> l.nodes == old(l.nodes) && l.contents == old(l.contents)
    ensures emptied <==> Expired(x, now) && l.contents == []
  {
    emptied := false;
    if x.Some? && x.value.timer <= now {
      FirstAtIs(l.contents, x, i);
      l.Delete(x);
      Start(l);
      emptied := l.IsEmpty();
    }
  }

  /** One round of `loop_source`: the node is copied, then its source may go, then the loop
      follows the copy. */
  method VisitNode(l: SrcList, ln: Node<Option<Source>>, ghost d: seq<Option<Source>>, ghost j: nat, ghost i: nat, now: int)
    returns (next: Node?<Option<Source>>, emptied: bool, ghost i': nat)
    requires l.Valid() && i < |l.contents| && ln == At(l.nodes, i) && Swept(d, j, l.contents, i, now)
    modifies l, l.Repr`next, l.Repr`prev
    ensures l.Valid() && l.Repr == old(l.Repr)
    ensures i <= i' <= |l.contents| && next == At(l.nodes, i') && Swept(d, j + 1, l.contents, i', now)
    ensures emptied <==> i' == i && l.contents == []
  {
    Cursor(l, ln, i);
    SweptStep(d, j, l.contents, i, now);
    assert forall j :: 0 <= j < i ==> l.contents[j] == l.contents[..i][j];
    hide Swept;
    next := ln.next;
    i' := if Expired(ln.data, now) then i else i + 1;
    emptied := ExpireNode(l, ln.data, i, now);
  }

  lemma SweptSizes(d: seq<Option<Source>>, j: nat, c: seq<Option<Source>>, i: nat, now: int)
    requires Swept(d, j, c, i, now)
    ensures i <= j <= |d| && |c| - i == |d| - j
  {
    assert |c[i..]| == |d[j..]|;
  }

  /** The loop `loop_source` of `expire_sources`, deleting from the list it walks.  `emptied`
      says that `expire_source` found the list empty after a deletion. */
  method ExpireList(l: SrcList, now: int) returns (emptied: bool)
    requires l.Valid()
    modifies l, l.Repr`next, l.Repr`prev
    ensures l.Valid() && l.Repr == old(l.Repr) && Nulls(l.contents) == old(Nulls(l.contents))
    ensures View(l.contents) == Unexpired(old(View(l.contents)), now)
    ensures emptied <==> View(l.contents) != old(View(l.contents)) && l.contents == []
  {
    ghost var d := l.contents;
    var ln := l.head;
    ghost var i: nat, j: nat := 0, 0;  // nodes kept, and nodes visited
    WholeView(d);
    Start(l);
    assert Swept(d, 0, l.contents, 0, now);
    emptied := false;
    hide View, Nulls, Addrs, Select, AddNew, RemoveAll, Swept, List.Valid;
    while ln != null && !emptied
      invariant i <= |l.contents| && ln == At(l.nodes, i)
      invariant l.Valid() && l.Repr == old(l.Repr)
      invariant Swept(d, j, l.contents, i, now)
      invariant emptied <==> i < j && l.contents == []
      decreases |l.contents| - i
    {
      Cursor(l, ln, i);
      SweptSizes(d, j, l.contents, i, now);
      ln, emptied, i := VisitNode(l, ln, d, j, i, now);
      j := j + 1;
      SweptSizes(d, j, l.contents, i, now);
    }
    Cursor(l, ln, i);
    SweptSizes(d, j, l.contents, i, now);
    SweptAll(d, j, l.contents, i, now);
    ViewLength(d);
    ViewLength(l.contents);
  }
}
