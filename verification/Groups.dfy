/** `struct groupnode` on the heap: a group and the list of its records, src/groups.c and
    src/grpint.c.  `recs` is the value of the list; `Repr` is what the group owns. */
module Groups {
  import opened LinkedList
  import opened Sources
  import opened SourceLists
  import opened Mld2
  import opened McastClient
  import opened Table
  import opened Views
  import opened GrpInt
  import opened Ownership
  import opened Splices

  class GroupNode {
    const mca: Addr
    const interfaces: List<GrpIntNode>
    var lastForward: int
    ghost var recs: seq<Record>
    ghost var parts: seq<set<object>>
    ghost var Repr: set<object>

    ghost predicate Valid()
      reads this, Repr
    {
      && interfaces in Repr && interfaces.Repr <= Repr && interfaces.Valid()
      && Apart({this, interfaces} + interfaces.Repr, interfaces.contents, parts, Repr)
      && |recs| == |parts| == |interfaces.contents|
      && forall i :: 0 <= i < |parts| ==>
                       var r := interfaces.contents[i]; r.Repr == parts[i] && r.Is(recs[i])
    }

    /** The value of the group. */
    ghost function Value(): Group
      reads this
    {
      Group(mca, recs, lastForward)
    }

    /** The group is sound and has value `v`. */
    ghost predicate Is(v: Group)
      reads this, Repr
    {
      Valid() && Value() == v
    }

    /** `group_create`. */
    constructor (mca: Addr, now: int)
      ensures Is(Group(mca, [], now)) && this in Repr && fresh(Repr)
      ensures interfaces.contents == []
    {
      this.mca := mca;
      interfaces := new List<GrpIntNode>();
      lastForward := now;
      recs, parts := [], [];
      new;
      Repr := {this, interfaces} + interfaces.Repr;
    }

    /** What the group knows of its record `j`. */
    lemma RecordAt(rn: GrpIntNode, j: nat)
      requires Valid() && j < |recs| && interfaces.contents[j] == rn
      ensures rn in rn.Repr && rn.Repr == parts[j] && rn.Repr <= Repr
      ensures rn.Is(recs[j]) && rn.Valid() && rn.Value() == recs[j]
      ensures rn.ifindex == recs[j].ifindex && rn.filterMode == recs[j].mode && rn.filterTimer == recs[j].filterTimer
      ensures this in Repr && interfaces !in rn.Repr && rn.Repr !! interfaces.Repr
      ensures forall i :: 0 <= i < |parts| ==> this !in parts[i] && (i != j ==> parts[i] !! parts[j])
    {
      ApartAt({this, interfaces} + interfaces.Repr, interfaces.contents, parts, Repr, j);
    }

    // -------------------------------------------------------------- readers

    /** `grpint_find`. */
    method FindRecord(i: int) returns (rn: GrpIntNode?, ghost j: nat)
      requires Valid()
      ensures RecPos(recs, i, j) && (rn == null <==> j == |recs|)
      ensures rn != null ==> interfaces.contents[j] == rn
    {
      hide List.Valid, GrpIntNode.Is, GrpIntNode.Valid, GrpIntNode.Value, Apart;
      var ln := interfaces.head;
      j := 0;
      Start(interfaces);
      while ln != null
        invariant j <= |recs| && ln == At(interfaces.nodes, j)
        invariant forall m :: 0 <= m < j ==> recs[m].ifindex != i
        decreases |recs| - j
      {
        Cursor(interfaces, ln, j);
        RecordAt(ln.data, j);
        if ln.data.ifindex == i {
          return ln.data, j;
        }
        ln := ln.next;
        j := j + 1;
      }
      Cursor(interfaces, ln, j);
      rn := null;
    }

    /** The inner loop of `check_route`. */
    method Verdict(i: int, s: Addr, now: int) returns (v: Option<bool>)
      requires Valid()
      ensures v == CheckRecs(recs, i, s, now)
    {
      hide List.Valid, GrpIntNode.Is, GrpIntNode.Valid, GrpIntNode.Value, Apart, Addrs, NoIncludes;
      var ln := interfaces.head;
      ghost var j: nat := 0;
      Start(interfaces);
      assert recs[0..] == recs;
      while ln != null
        invariant j <= |recs| && ln == At(interfaces.nodes, j)
        invariant CheckRecs(recs, i, s, now) == CheckRecs(recs[j..], i, s, now)
        decreases |recs| - j
      {
        Cursor(interfaces, ln, j);
        RecordAt(ln.data, j);
        assert recs[j..][0] == recs[j] && recs[j..][1..] == recs[j + 1..];
        if ln.data.ifindex == i {
          v := ln.data.Verdict(s, now);
          if v.Some? {
            return;
          }
        }
        ln := ln.next;
        j := j + 1;
      }
      Cursor(interfaces, ln, j);
      v := None;
    }

    /** The upstream calls for one record: join, and set the filter unless the list is empty. */
    method CallsForRecord(rn: GrpIntNode) returns (calls: seq<Call>)
      requires rn.Valid()
      ensures calls == CallsFor(mca, rn.Value())
    {
      hide View, Nulls;
      var sources := if rn.filterMode == Include then rn.includes else rn.excludes;
      Start(sources);
      ViewLength(sources.contents);
      if sources.count == 0 && rn.filterMode == Include {
        return [];
      }
      calls := [Join(mca)];
      if !sources.IsEmpty() {
        var slist := FillSources(sources);
        calls := calls + [SetFilter(mca, rn.filterMode, slist[..])];
      }
    }

    /** The inner loop of `handle_upstream_subscription`. */
    method CallsOn(i: int) returns (calls: seq<Call>)
      requires Valid()
      ensures calls == CallsOf(mca, recs, i)
    {
      hide List.Valid, GrpIntNode.Is, GrpIntNode.Valid, GrpIntNode.Value, Apart, CallsFor;
      calls := [];
      var ln := interfaces.head;
      ghost var j: nat := 0;
      Start(interfaces);
      assert recs[..0] == [];
      while ln != null
        invariant j <= |recs| && ln == At(interfaces.nodes, j)
        invariant calls == CallsOf(mca, recs[..j], i)
        decreases |recs| - j
      {
        Cursor(interfaces, ln, j);
        RecordAt(ln.data, j);
        CallsOfMore(mca, recs, j, i);
        if ln.data.ifindex == i {
          var more := CallsForRecord(ln.data);
          calls := calls + more;
        }
        ln := ln.next;
        j := j + 1;
      }
      Cursor(interfaces, ln, j);
      assert recs[..j] == recs;
    }

    // -------------------------------------------------------------- changes to one record

    /** `loop_source` of `expire_sources` on record `j`. */
    method ExpireIncludes(rn: GrpIntNode, ghost j: nat, now: int) returns (emptied: bool)
      requires Valid() && j < |recs| && interfaces.contents[j] == rn && recs[j].mode == Include
      modifies Repr
      ensures Repr == old(Repr)
      ensures interfaces.nodes == old(interfaces.nodes) && interfaces.contents == old(interfaces.contents)
      ensures var r := old(recs)[j];
              Is(old(Value()).(recs := old(recs)[j := r.(includes := Unexpired(r.includes, now))]))
      ensures emptied <==> Sweep(old(recs)[j], now).None?
    {
      hide Unexpired, Sweep, List.Valid, GrpIntNode.Is, GrpIntNode.Valid, GrpIntNode.Value, Apart;
      RecordAt(rn, j);
      emptied := rn.ExpireIncludes(now);
      recs := recs[j := recs[j].(includes := Unexpired(recs[j].includes, now))];
    }

    /** `list_hasmember` for the source of a packet, and `expire_source` on what it finds. */
    method ExpireMember(rn: GrpIntNode, ghost j: nat, s: Addr, now: int) returns (found: bool, emptied: bool)
      requires Valid() && j < |recs| && interfaces.contents[j] == rn && recs[j].mode == Include
      modifies Repr
      ensures Repr == old(Repr)
      ensures interfaces.nodes == old(interfaces.nodes) && interfaces.contents == old(interfaces.contents)
      ensures found <==> s in Addrs(old(recs)[j].includes)
      ensures !found ==> Is(old(Value()))
      ensures found ==> var r := old(recs)[j];
                        && Is(old(Value()).(recs := old(recs)[j := WithoutExpired(r, s, now)]))
                        && (emptied <==> ExpireOne(r, s, now).None?)
    {
      hide Find, RemoveFirst, Addrs, ExpireOne, List.Valid, GrpIntNode.Is, GrpIntNode.Valid, GrpIntNode.Value, Apart;
      RecordAt(rn, j);
      found, emptied := rn.ExpireMember(s, now);
      if found {
        recs := recs[j := WithoutExpired(recs[j], s, now)];
      }
    }

    /** `filter_mode = MLD2_MODE_IS_INCLUDE` on record `j`; `empty` is the test that follows. */
    method SwitchToInclude(rn: GrpIntNode, ghost j: nat) returns (empty: bool)
      requires Valid() && j < |recs| && interfaces.contents[j] == rn && recs[j].mode == Exclude
      modifies Repr
      ensures Repr == old(Repr)
      ensures interfaces.nodes == old(interfaces.nodes) && interfaces.contents == old(interfaces.contents)
      ensures Is(old(Value()).(recs := old(recs)[j := old(recs)[j].(mode := Include)]))
      ensures empty <==> NoIncludes(old(recs)[j])
    {
      hide NoIncludes, List.Valid, GrpIntNode.Is, GrpIntNode.Valid, GrpIntNode.Value, Apart;
      RecordAt(rn, j);
      empty := rn.SwitchToInclude();
      recs := recs[j := recs[j].(mode := Include)];
    }

    /** The transition of record `j`. */
    method HandleReport(rn: GrpIntNode, ghost j: nat, t: RecType, b: SrcList, now: int) returns (q: seq<Query>)
      requires Valid() && j < |recs| && interfaces.contents[j] == rn && b.Valid() && b !in Repr && b.Repr !! Repr
      modifies Repr
      ensures this in Repr && fresh(Repr - old(Repr))
      ensures interfaces.nodes == old(interfaces.nodes) && interfaces.contents == old(interfaces.contents)
      ensures Is(old(Value()).(recs := old(recs)[j := Handle(old(recs)[j], t, View(b.contents), now)]))
      ensures q == Queries(old(recs)[j], t, View(b.contents))
    {
      hide Handle, Queries, View, List.Valid, GrpIntNode.Is, GrpIntNode.Valid, GrpIntNode.Value, Apart;
      RecordAt(rn, j);
      ghost var sources := View(b.contents);
      q := rn.HandleReport(t, b, now);
      ApartGrow({this, interfaces} + interfaces.Repr, interfaces.contents, parts, Repr, j, rn.Repr);
      recs, parts, Repr := recs[j := Handle(recs[j], t, sources, now)], parts[j := rn.Repr], Repr + rn.Repr;
    }

    method SetLastForward(now: int)
      requires Valid()
      modifies Repr
      ensures Repr == old(Repr) && Is(old(Value()).(lastForward := now))
      ensures interfaces.contents == old(interfaces.contents)
    {
      hide List.Valid, GrpIntNode.Is, GrpIntNode.Valid, GrpIntNode.Value, Apart;
      ListAt();
      lastForward := now;
    }

    // -------------------------------------------------------------- changes to the list

    /** `grpint_create` and `listnode_add`. */
    method AddRecord(i: int, heap: int) returns (rn: GrpIntNode)
      requires Valid()
      modifies Repr
      ensures this in Repr && fresh(Repr - old(Repr))
      ensures interfaces.contents == old(interfaces.contents) + [rn]
      ensures Is(old(Value()).(recs := old(recs) + [Fresh(i, heap)]))
    {
      hide List.Valid, GrpIntNode.Is, GrpIntNode.Valid, GrpIntNode.Value, Apart;
      ListAt();
      ghost var core := {this, interfaces} + interfaces.Repr;
      rn := new GrpIntNode(i, heap);
      interfaces.Add(rn);
      ghost var core' := {this, interfaces} + interfaces.Repr;
      ApartAdd(core, interfaces.contents[..|parts|], parts, Repr, core', rn, rn.Repr);
      assert interfaces.contents[..|parts|] + [rn] == interfaces.contents;
      recs, parts, Repr := recs + [Fresh(i, heap)], parts + [rn.Repr], Repr + core' + rn.Repr;
    }

    /** What the group knows of its list. */
    lemma ListAt()
      requires Valid()
      ensures {this, interfaces} <= Repr && interfaces.Repr <= Repr
      ensures forall i :: 0 <= i < |parts| ==> {this, interfaces} !! parts[i] && interfaces.Repr !! parts[i]
    {
    }

    /** `listnode_delete(groupn->interfaces, grpintn)`, and whether that was the last one. */
    method Remove(rn: GrpIntNode, ghost j: nat) returns (last: bool)
      requires Valid() && j < |recs| && interfaces.contents[j] == rn
      modifies Repr
      ensures Repr == old(Repr)
      ensures interfaces.nodes == Without(old(interfaces.nodes), j)
      ensures Is(old(Value()).(recs := Without(old(recs), j)))
      ensures last <==> |old(recs)| == 1
    {
      hide List.Valid, GrpIntNode.Is, Apart;
      ListAt();
      ghost var core := {this, interfaces} + interfaces.Repr;
      ApartOnce(core, interfaces.contents, parts, Repr, j);
      ApartDrop(core, interfaces.contents, parts, Repr, j, Without(interfaces.contents, j));
      FirstAtIs(interfaces.contents, rn, j);
      interfaces.Delete(rn);
      recs, parts := Without(recs, j), Without(parts, j);
      Start(interfaces);
      last := interfaces.IsEmpty();
    }
  }
}
