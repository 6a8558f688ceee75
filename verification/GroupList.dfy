/** The global list of groups, `g_conf->groups`, on the heap: a list of groups, each with a list
    of records, each with two lists of sources.  `table` is its value.  The methods find, read
    and change one group or one record; the loops that do so are in Conf.dfy. */
module GroupList {
  import opened LinkedList
  import opened Sources
  import opened SourceLists
  import opened Mld2
  import opened Table
  import opened Views
  import opened GrpInt
  import opened Groups
  import opened Ownership
  import opened Splices

  class GroupTable {
    const list: List<GroupNode>
    ghost var table: seq<Group>
    ghost var parts: seq<set<object>>
    ghost var Repr: set<object>

    ghost predicate Valid()
      reads this, Repr
    {
      && list in Repr && list.Repr <= Repr && list.Valid() && this !in Repr
      && Apart({list} + list.Repr, list.contents, parts, Repr)
      && |table| == |parts| == |list.contents|
      && forall k :: 0 <= k < |parts| ==>
                       var g := list.contents[k]; g.Repr == parts[k] && g.Is(table[k])
    }

    constructor ()
      ensures Valid() && table == [] && fresh(Repr)
    {
      list := new List<GroupNode>();
      table, parts := [], [];
      new;
      Repr := {list} + list.Repr;
    }

    /** What the table knows of its group `k`. */
    lemma GroupAt(gn: GroupNode, k: nat)
      requires Valid() && k < |table| && list.contents[k] == gn
      ensures gn in gn.Repr && gn.Repr == parts[k] && gn.Repr <= Repr
      ensures gn.Is(table[k]) && gn.Valid() && gn.recs == table[k].recs && gn.mca == table[k].mca
      ensures gn.Value() == table[k] && |gn.recs| == |gn.interfaces.contents| && k < |list.nodes| == |table|
      ensures list !in gn.Repr && gn.Repr !! list.Repr && this !in Repr
      ensures forall i :: 0 <= i < |parts| && i != k ==> parts[i] !! parts[k] && list.contents[i] !in parts[k]
    {
      ApartAt({list} + list.Repr, list.contents, parts, Repr, k);
    }

    /** What the table knows of its list. */
    lemma ListAt()
      requires Valid()
      ensures list in Repr && list.Repr <= Repr && this !in Repr
      ensures forall i :: 0 <= i < |parts| ==> {this, list} !! parts[i] && list.Repr !! parts[i]
    {
    }

    /** `gn` is group `k`, and `rn` its record `j`. */
    ghost predicate Here(gn: GroupNode, rn: GrpIntNode, k: nat, j: nat)
      requires Valid()
      reads this, Repr
    {
      && k < |table| && list.contents[k] == gn && j < |table[k].recs|
      && gn.interfaces in Repr && j < |gn.interfaces.contents| && gn.interfaces.contents[j] == rn
    }

    /** The fields the loops look at. */
    lemma RecordHere(gn: GroupNode, rn: GrpIntNode, k: nat, j: nat)
      requires Valid() && Here(gn, rn, k, j)
      ensures rn in Repr && rn.Repr <= Repr && rn.Valid() && rn.Value() == table[k].recs[j]
      ensures j < |gn.interfaces.nodes|
      ensures var r := table[k].recs[j];
              rn.ifindex == r.ifindex && rn.filterMode == r.mode && rn.filterTimer == r.filterTimer
    {
      GroupAt(gn, k);
      gn.RecordAt(rn, j);
    }

    /** What a loop over the groups finds at node `ln`, and where it starts. */
    lemma CursorAt(ln: Node?<GroupNode>, k: nat)
      requires Valid() && ln == At(list.nodes, k) && k <= |table|
      ensures ln == null <==> k == |table|
      ensures ln != null ==> k < |list.nodes| && ln in Repr && ln.data == list.contents[k] && ln.next == At(list.nodes, k + 1)
    {
      Cursor(list, ln, k);
    }

    lemma TableStart()
      requires Valid()
      ensures list.head == At(list.nodes, 0)
    {
    }

    /** What a loop over the records of group `k` finds at node `ln`. */
    lemma CursorHere(gn: GroupNode, k: nat, ln: Node?<GrpIntNode>, j: nat)
      requires Valid() && k < |table| && list.contents[k] == gn
      requires ln == At(gn.interfaces.nodes, j) && j <= |table[k].recs|
      ensures ln == null <==> j == |table[k].recs|
      ensures ln != null ==> Here(gn, ln.data, k, j) && ln in Repr
      ensures ln != null ==> j < |gn.interfaces.nodes| && ln.next == At(gn.interfaces.nodes, j + 1)
    {
      GroupAt(gn, k);
      Cursor(gn.interfaces, ln, j);
    }

    // -------------------------------------------------------------- readers

    /** `group_find`. */
    method FindGroup(g: Addr) returns (gn: GroupNode?, ghost k: nat)
      requires Valid()
      ensures GroupPos(table, g, k) && (gn == null <==> k == |table|)
      ensures gn != null ==> list.contents[k] == gn
      ensures if gn == null then !HasGroup(table, g) else gn.mca == g && gn in list.contents
    {
      hide List.Valid, GroupNode.Is, GroupNode.Valid, GroupNode.Value, Apart;
      var ln := list.head;
      k := 0;
      Start(list);
      while ln != null
        invariant k <= |table| && ln == At(list.nodes, k)
        invariant forall m :: 0 <= m < k ==> table[m].mca != g
        decreases |table| - k
      {
        Cursor(list, ln, k);
        GroupAt(ln.data, k);
        if ln.data.mca == g {
          return ln.data, k;
        }
        ln := ln.next;
        k := k + 1;
      }
      Cursor(list, ln, k);
      gn := null;
    }

    /** `check_route`. */
    method CheckRoute(i: int, s: Addr, g: Addr, now: int) returns (wanted: bool)
      requires Valid()
      ensures wanted == Views.CheckRoute(table, i, s, g, now)
    {
      hide List.Valid, GroupNode.Is, GroupNode.Valid, GroupNode.Value, Apart, CheckRecs;
      var ln := list.head;
      ghost var k: nat := 0;
      Start(list);
      assert table[0..] == table;
      while ln != null
        invariant k <= |table| && ln == At(list.nodes, k)
        invariant Views.CheckRoute(table, i, s, g, now) == Views.CheckRoute(table[k..], i, s, g, now)
        decreases |table| - k
      {
        Cursor(list, ln, k);
        GroupAt(ln.data, k);
        assert table[k..][0] == table[k] && table[k..][1..] == table[k + 1..];
        if ln.data.mca == g {
          var v := ln.data.Verdict(i, s, now);
          if v.Some? {
            return v.value;
          }
        }
        ln := ln.next;
        k := k + 1;
      }
      Cursor(list, ln, k);
      return false;
    }

    /** The two loops of `handle_upstream_subscription`. */
    method UpstreamCalls(i: int) returns (calls: seq<Call>)
      requires Valid()
      ensures calls == Calls(table, i)
    {
      hide List.Valid, GroupNode.Is, GroupNode.Valid, GroupNode.Value, Apart, CallsOf;
      calls := [];
      var ln := list.head;
      ghost var k: nat := 0;
      Start(list);
      assert table[..0] == [];
      while ln != null
        invariant k <= |table| && ln == At(list.nodes, k)
        invariant calls == Calls(table[..k], i)
        decreases |table| - k
      {
        Cursor(list, ln, k);
        GroupAt(ln.data, k);
        CallsMore(table, k, i);
        var more := ln.data.CallsOn(i);
        calls := calls + more;
        ln := ln.next;
        k := k + 1;
      }
      Cursor(list, ln, k);
      assert table[..k] == table;
    }

    // -------------------------------------------------------------- changes to one record

    /** `loop_source` on record `j` of group `k`. */
    method ExpireIncludes(gn: GroupNode, rn: GrpIntNode, ghost k: nat, ghost j: nat, now: int) returns (emptied: bool)
      requires Valid() && Here(gn, rn, k, j) && table[k].recs[j].mode == Include
      modifies this, Repr
      ensures Valid() && Repr == old(Repr) && Here(gn, rn, k, j)
      ensures list.nodes == old(list.nodes) && list.contents == old(list.contents)
      ensures gn.interfaces.nodes == old(gn.interfaces.nodes)
      ensures var r := old(table)[k].recs[j];
              table == Splice(old(table), k, j, Some(r.(includes := Unexpired(r.includes, now))))
      ensures emptied <==> Sweep(old(table)[k].recs[j], now).None?
    {
      hide Unexpired, Sweep, List.Valid, GroupNode.Is, GroupNode.Valid, GroupNode.Value, Apart, Splice;
      GroupAt(gn, k);
      ListAt();
      emptied := gn.ExpireIncludes(rn, j, now);
      ghost var r := table[k].recs[j];
      SpliceOne(table, k, j, r.(includes := Unexpired(r.includes, now)));
      table := Splice(table, k, j, Some(r.(includes := Unexpired(r.includes, now))));
    }

    /** `list_hasmember` for the source of a packet in record `j` of group `k`, and
        `expire_source` on what it finds. */
    method ExpireMember(gn: GroupNode, rn: GrpIntNode, ghost k: nat, ghost j: nat, s: Addr, now: int)
      returns (found: bool, emptied: bool)
      requires Valid() && Here(gn, rn, k, j) && table[k].recs[j].mode == Include
      modifies this, Repr
      ensures Valid() && Repr == old(Repr) && Here(gn, rn, k, j)
      ensures list.nodes == old(list.nodes) && list.contents == old(list.contents)
      ensures gn.interfaces.nodes == old(gn.interfaces.nodes)
      ensures found <==> s in Addrs(old(table)[k].recs[j].includes)
      ensures !found ==> table == old(table)
      ensures found ==> var r := old(table)[k].recs[j];
                        && table == Splice(old(table), k, j, Some(WithoutExpired(r, s, now)))
                        && (emptied <==> ExpireOne(r, s, now).None?)
    {
      hide Addrs, WithoutExpired, ExpireOne, List.Valid, GroupNode.Is, GroupNode.Valid, GroupNode.Value, Apart, Splice;
      GroupAt(gn, k);
      ListAt();
      found, emptied := gn.ExpireMember(rn, j, s, now);
      ghost var r := table[k].recs[j];
      if found {
        SpliceOne(table, k, j, WithoutExpired(r, s, now));
        table := Splice(table, k, j, Some(WithoutExpired(r, s, now)));
      }
    }

    /** `filter_mode = MLD2_MODE_IS_INCLUDE`; `empty` is the test that follows. */
    method SwitchToInclude(gn: GroupNode, rn: GrpIntNode, ghost k: nat, ghost j: nat) returns (empty: bool)
      requires Valid() && Here(gn, rn, k, j) && table[k].recs[j].mode == Exclude
      modifies this, Repr
      ensures Valid() && Repr == old(Repr) && Here(gn, rn, k, j)
      ensures list.nodes == old(list.nodes) && list.contents == old(list.contents)
      ensures gn.interfaces.nodes == old(gn.interfaces.nodes)
      ensures table == Splice(old(table), k, j, Some(old(table)[k].recs[j].(mode := Include)))
      ensures empty <==> NoIncludes(old(table)[k].recs[j])
    {
      hide NoIncludes, List.Valid, GroupNode.Is, GroupNode.Valid, GroupNode.Value, Apart, Splice;
      GroupAt(gn, k);
      ListAt();
      empty := gn.SwitchToInclude(rn, j);
      SpliceOne(table, k, j, table[k].recs[j].(mode := Include));
      table := Splice(table, k, j, Some(table[k].recs[j].(mode := Include)));
    }

    /** The transition of record `j` of group `k`. */
    method HandleReport(gn: GroupNode, rn: GrpIntNode, ghost k: nat, ghost j: nat, t: RecType, b: SrcList, now: int)
      returns (q: seq<Query>)
      requires Valid() && Here(gn, rn, k, j) && b.Valid() && b !in Repr && b.Repr !! Repr
      modifies this, Repr
      ensures Valid() && fresh(Repr - old(Repr))
      ensures var r := old(table)[k].recs[j];
              && table == Splice(old(table), k, j, Some(Handle(r, t, View(b.contents), now)))
              && q == Queries(r, t, View(b.contents))
    {
      hide Handle, Queries, View, List.Valid, GroupNode.Is, GroupNode.Valid, GroupNode.Value, Apart, Splice;
      GroupAt(gn, k);
      ListAt();
      ghost var sources := View(b.contents);
      q := gn.HandleReport(rn, j, t, b, now);
      Regrow(gn, k);
      SpliceOne(table, k, j, Handle(table[k].recs[j], t, sources, now));
      table := Splice(table, k, j, Some(Handle(table[k].recs[j], t, sources, now)));
    }

    /** Group `k` has come to own new objects. */
    ghost method Regrow(gn: GroupNode, k: nat)
      requires Apart({list} + list.Repr, list.contents, parts, Repr) && k < |parts| == |list.contents|
      requires list.contents[k] == gn && gn in gn.Repr && gn.Repr - parts[k] !! Repr && this !in gn.Repr
      modifies `parts, `Repr
      ensures parts == old(parts)[k := gn.Repr] && Repr == old(Repr) + gn.Repr
      ensures Apart({list} + list.Repr, list.contents, parts, Repr)
    {
      ApartGrow({list} + list.Repr, list.contents, parts, Repr, k, gn.Repr);
      parts, Repr := parts[k := gn.Repr], Repr + gn.Repr;
    }

    // -------------------------------------------------------------- changes to the lists

    /** The `grpint_create` half of `groupint_get`. */
    method AddRecord(gn: GroupNode, ghost k: nat, i: int, heap: int) returns (rn: GrpIntNode)
      requires Valid() && k < |table| && list.contents[k] == gn
      modifies this, Repr
      ensures Valid() && fresh(Repr - old(Repr)) && Here(gn, rn, k, |old(table)[k].recs|)
      ensures table == old(table)[k := old(table)[k].(recs := old(table)[k].recs + [Fresh(i, heap)])]
    {
      hide List.Valid, GroupNode.Is, GroupNode.Valid, GroupNode.Value, Apart, Splice;
      GroupAt(gn, k);
      ListAt();
      rn := gn.AddRecord(i, heap);
      Regrow(gn, k);
      table := table[k := table[k].(recs := table[k].recs + [Fresh(i, heap)])];
    }

    /** `groupn->lastforward = time(NULL)`. */
    method SetLastForward(gn: GroupNode, ghost k: nat, now: int)
      requires Valid() && k < |table| && list.contents[k] == gn
      modifies this, Repr
      ensures Valid() && Repr == old(Repr) && list.contents == old(list.contents)
      ensures table == old(table)[k := old(table)[k].(lastForward := now)]
    {
      hide List.Valid, GroupNode.Is, GroupNode.Valid, GroupNode.Value, Apart, Splice;
      GroupAt(gn, k);
      ListAt();
      gn.SetLastForward(now);
      table := table[k := table[k].(lastForward := now)];
    }

    /** `group_create` and `listnode_add`. */
    method AddGroup(g: Addr, now: int) returns (gn: GroupNode)
      requires Valid()
      modifies this, Repr
      ensures Valid() && fresh(Repr - old(Repr))
      ensures table == old(table) + [Group(g, [], now)] && list.contents == old(list.contents) + [gn]
    {
      hide List.Valid, GroupNode.Is, GroupNode.Valid, GroupNode.Value, Apart;
      ListAt();
      ghost var core := {list} + list.Repr;
      gn := new GroupNode(g, now);
      list.Add(gn);
      ghost var core' := {list} + list.Repr;
      ApartAdd(core, list.contents[..|parts|], parts, Repr, core', gn, gn.Repr);
      assert list.contents[..|parts|] + [gn] == list.contents;
      table, parts, Repr := table + [Group(g, [], now)], parts + [gn.Repr], Repr + core' + gn.Repr;
    }

    /** `groupint_get`: find or create, on both levels. */
    method Get(g: Addr, i: int, now: int, heap: int) returns (gn: GroupNode, rn: GrpIntNode, ghost k: nat, ghost j: nat)
      requires Valid()
      modifies this, Repr
      ensures Valid() && fresh(Repr - old(Repr)) && Here(gn, rn, k, j)
      ensures Got(old(table), g, i, now, heap, k, j, table)
    {
      hide List.Valid, GroupNode.Is, GroupNode.Valid, GroupNode.Value, Apart;
      var found;
      found, k := FindGroup(g);
      if found == null {
        gn := AddGroup(g, now);
      } else {
        gn := found;
      }
      SetLastForward(gn, k, now);
      GroupAt(gn, k);
      var rec;
      rec, j := gn.FindRecord(i);
      if rec == null {
        rn := AddRecord(gn, k, i, heap);
      } else {
        rn := rec;
      }
    }

    /** `remove_grpintn`; says whether the group went with the record. */
    method RemoveGrpInt(gn: GroupNode, rn: GrpIntNode, ghost k: nat, ghost j: nat) returns (last: bool)
      requires Valid() && Here(gn, rn, k, j)
      modifies this, Repr
      ensures Valid() && Repr == old(Repr) && table == Splice(old(table), k, j, None)
      ensures last <==> |old(table)[k].recs| == 1
      ensures last ==> list.nodes == Without(old(list.nodes), k)
      ensures !last ==> list.nodes == old(list.nodes) && list.contents == old(list.contents)
      ensures !last ==> gn.interfaces.nodes == Without(old(gn.interfaces.nodes), j)
    {
      hide List.Valid, GroupNode.Is, GroupNode.Valid, GroupNode.Value, Apart, Splice;
      GroupAt(gn, k);
      ListAt();
      last := gn.Remove(rn, j);
      SpliceNone(table, k, j);
      table := table[k := table[k].(recs := Without(table[k].recs, j))];
      if last {
        RemoveGroup(gn, k);
      }
    }

    /** `listnode_delete(g_conf->groups, groupn)`. */
    method RemoveGroup(gn: GroupNode, ghost k: nat)
      requires Valid() && k < |table| && list.contents[k] == gn
      modifies this, Repr
      ensures Valid() && Repr == old(Repr)
      ensures table == Without(old(table), k) && list.nodes == Without(old(list.nodes), k)
    {
      hide List.Valid, GroupNode.Is, GroupNode.Valid, GroupNode.Value, Apart;
      ListAt();
      ghost var core := {list} + list.Repr;
      ApartOnce(core, list.contents, parts, Repr, k);
      ApartDrop(core, list.contents, parts, Repr, k, Without(list.contents, k));
      FirstAtIs(list.contents, gn, k);
      list.Delete(gn);
      table, parts := Without(table, k), Without(parts, k);
    }
  }
}
