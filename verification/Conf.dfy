/** The daemon's state (`struct conf`) on the heap and the loops that change it: the sweep and
    the upstream half of src/mld2_logic.c, the report handler and the forwarder of src/ecmh.c.

    LIST_LOOP over a list that shrinks steps from a copy of the current node: `copyNext` is
    the copy's next pointer, taken before the body runs. */
module ConfState {
  import opened LinkedList
  import opened Sources
  import opened SourceLists
  import opened Mld2
  import opened Table
  import opened Views
  import opened Splices
  import opened GrpInt
  import opened Groups
  import opened GroupList
  import opened Packets
  import opened Checksum
  import Rfc3810
  import Routes
  import Reports

  /** Where LIST_LOOP is after a round that may have deleted the node it stood on. */
  lemma NextAt<T>(ns: seq<Node<T>>, k: nat)
    requires k < |ns|
    ensures At(Without(ns, k), k) == At(ns, k + 1)
  {
  }

  /** Routes that `check_route` refuses. */
  lemma AllRefused(t: seq<Group>, down: int, now: int)
    requires Keyed(t)
    ensures forall x: Routes.Route :: !CheckRoute(t, down, x.src, x.grp, now) ==>
              var r := Lookup(t, x.grp, down); r.None? || !Accepts(r.value, x.src, now)
  {
    forall x: Routes.Route | !CheckRoute(t, down, x.src, x.grp, now)
      ensures var r := Lookup(t, x.grp, down); r.None? || !Accepts(r.value, x.src, now)
    {
      Routes.RefusedMeaning(t, down, x, now);
    }
  }

  class Conf {
    const groups: GroupTable
    const mrouter: Routes.MRouter
    const downstream: int              // the interface whose wishes decide about kernel routes
    var upstream: map<int, seq<Call>>  // the calls made on each interface's upstream socket

    /** Lists and trees are sound, and the route list mirrors the kernel. */
    ghost predicate Linked()
      reads this, groups, groups.Repr, mrouter, mrouter.routes, mrouter.routes.Repr
    {
      && groups.Valid() && mrouter.Valid() && mrouter.Separate(groups) && this !in groups.Repr
    }

    /** Moreover keys are unique and all wants are requested upstream. */
    ghost predicate Valid()
      reads this, groups, groups.Repr, mrouter, mrouter.routes, mrouter.routes.Repr
    {
      Linked() && Keyed(groups.table) && Fits(groups.table, upstream)
    }

    /** Everything the daemon's state consists of. */
    ghost function Repr(): set<object>
      reads this, groups, mrouter, mrouter.routes
    {
      {this, groups, mrouter, mrouter.routes} + groups.Repr + mrouter.routes.Repr
    }

    constructor (downstream: int)
      ensures Valid() && groups.table == [] && mrouter.kernel == {} && fresh(Repr())
    {
      this.downstream := downstream;
      groups := new GroupTable();
      mrouter := new Routes.MRouter();
      upstream := map[];
    }

    /** `handle_upstream_subscription`: a fresh socket and the calls for every record of the
        interface, then `expire_routes`. */
    method HandleUpstream(i: int, now: int)
      requires Linked()
      modifies `upstream, mrouter, mrouter.routes, mrouter.routes.Repr
      ensures Linked() && mrouter.routes.Repr == old(mrouter.routes.Repr)
      ensures upstream == old(upstream)[i := Calls(groups.table, i)]
      ensures mrouter.routes.contents == Routes.Pass(old(mrouter.routes.contents), Routes.WantedBy(groups.table, downstream, now))
      ensures mrouter.kernel <= old(mrouter.kernel)
      ensures forall x :: x in old(mrouter.kernel) && CheckRoute(groups.table, downstream, x.src, x.grp, now) ==> x in mrouter.kernel
      ensures Keyed(groups.table) ==> forall x :: x in old(mrouter.kernel) && x !in mrouter.kernel ==>
                var r := Lookup(groups.table, x.grp, downstream); r.None? || !Accepts(r.value, x.src, now)
    {
      hide GroupTable.Valid, Routes.MRouter.Valid, Calls, Routes.Pass, CheckRoute, Lookup, Accepts, Keyed;
      var calls := groups.UpstreamCalls(i);
      mrouter.ExpireRoutes(groups, downstream, now);
      if Keyed(groups.table) {
        AllRefused(groups.table, downstream, now);
      }
      upstream := upstream[i := calls];
    }

    // -------------------------------------------------------------- expiry

    /** `remove_grpintn` for a record whose group is not joined on its interface; says whether
        the group went with it. */
    method RemoveRecord(gn: GroupNode, rn: GrpIntNode, ghost k: nat, ghost j: nat) returns (last: bool)
      requires Valid() && groups.Here(gn, rn, k, j) && !JoinedOn(upstream, groups.table[k].mca, groups.table[k].recs[j].ifindex)
      modifies groups, groups.Repr
      ensures Valid() && groups.Repr == old(groups.Repr)
      ensures groups.table == Splice(old(groups.table), k, j, None)
      ensures last <==> |old(groups.table)[k].recs| == 1
      ensures last ==> groups.list.nodes == Without(old(groups.list.nodes), k)
      ensures !last ==> groups.list.nodes == old(groups.list.nodes) && groups.list.contents == old(groups.list.contents)
      ensures !last ==> gn.interfaces.nodes == Without(old(gn.interfaces.nodes), j)
    {
      hide GroupTable.Valid, Routes.MRouter.Valid, Keyed, Fits, FitsBut, Splice, JoinedOn;
      FitsAfterSplice(groups.table, k, j, None, upstream);
      last := groups.RemoveGrpInt(gn, rn, k, j);
    }

    /** The two calls of `expire_source` for a record without sources. */
    method RemoveAndRenew(gn: GroupNode, rn: GrpIntNode, ghost k: nat, ghost j: nat, now: int) returns (last: bool)
      requires Valid() && groups.Here(gn, rn, k, j)
      modifies Repr()
      ensures Valid() && Repr() == old(Repr()) && mrouter.kernel <= old(mrouter.kernel)
      ensures forall x :: x in old(mrouter.kernel) && CheckRoute(groups.table, downstream, x.src, x.grp, now) ==> x in mrouter.kernel
      ensures groups.table == Splice(old(groups.table), k, j, None)
      ensures upstream == old(upstream)[rn.ifindex := Calls(groups.table, rn.ifindex)]
      ensures last <==> |old(groups.table)[k].recs| == 1
      ensures last ==> groups.list.nodes == Without(old(groups.list.nodes), k)
      ensures !last ==> groups.list.nodes == old(groups.list.nodes) && groups.list.contents == old(groups.list.contents)
      ensures !last ==> gn.interfaces.nodes == Without(old(gn.interfaces.nodes), j)
    {
      hide GroupTable.Valid, Routes.MRouter.Valid, Keyed, Fits, FitsBut, Splice, Calls, Routes.Pass, CheckRoute, Lookup, Accepts;
      groups.ListAt();
      groups.RecordHere(gn, rn, k, j);
      ghost var up := upstream;
      FitsAfterSplice(groups.table, k, j, None, up);
      last := groups.RemoveGrpInt(gn, rn, k, j);
      HandleUpstream(rn.ifindex, now);
      FitsAfterRebuild(groups.table, up, rn.ifindex, upstream);
    }

    /** `mld2_switch_to_include` up to the test: the mode changes, the upstream side is renewed. */
    method SwitchAndRenew(gn: GroupNode, rn: GrpIntNode, ghost k: nat, ghost j: nat, now: int) returns (empty: bool)
      requires Valid() && groups.Here(gn, rn, k, j) && groups.table[k].recs[j].mode == Exclude
      modifies Repr()
      ensures Valid() && Repr() == old(Repr()) && mrouter.kernel <= old(mrouter.kernel) && groups.Here(gn, rn, k, j)
      ensures forall x :: x in old(mrouter.kernel) && CheckRoute(groups.table, downstream, x.src, x.grp, now) ==> x in mrouter.kernel
      ensures groups.table == Splice(old(groups.table), k, j, Some(old(groups.table)[k].recs[j].(mode := Include)))
      ensures upstream == old(upstream)[rn.ifindex := Calls(groups.table, rn.ifindex)]
      ensures JoinsMatter(groups.table, upstream, rn.ifindex)
      ensures groups.list.nodes == old(groups.list.nodes) && groups.list.contents == old(groups.list.contents)
      ensures gn.interfaces.nodes == old(gn.interfaces.nodes)
      ensures empty <==> NoIncludes(old(groups.table)[k].recs[j])
    {
      hide GroupTable.Valid, Routes.MRouter.Valid, Keyed, Fits, FitsBut, Splice, Calls, Routes.Pass, NoIncludes;
      hide CheckRoute, Lookup, Accepts, JoinsMatter;
      groups.RecordHere(gn, rn, k, j);
      groups.ListAt();
      ghost var r' := groups.table[k].recs[j].(mode := Include);
      FitsAfterSplice(groups.table, k, j, Some(r'), upstream);
      ghost var up := upstream;
      empty := groups.SwitchToInclude(gn, rn, k, j);
      HandleUpstream(rn.ifindex, now);
      FitsAfterRebuild(groups.table, up, rn.ifindex, upstream);
    }

    /** `mld2_switch_to_include`; says whether the group went with the record. */
    method SwitchRecord(gn: GroupNode, rn: GrpIntNode, ghost k: nat, ghost j: nat, now: int) returns (last: bool)
      requires Valid() && groups.Here(gn, rn, k, j) && groups.table[k].recs[j].mode == Exclude
      modifies Repr()
      ensures Valid() && Repr() == old(Repr())
      ensures Routes.KeepsRoutes(old(mrouter.kernel), mrouter.kernel, old(groups.table), groups.table, downstream, now)
      ensures groups.table == Splice(old(groups.table), k, j, SwitchToInclude(old(groups.table)[k].recs[j]))
      ensures upstream == old(upstream)[rn.ifindex := Calls(groups.table, rn.ifindex)]
      ensures last <==> NoIncludes(old(groups.table)[k].recs[j]) && |old(groups.table)[k].recs| == 1
      ensures last ==> groups.list.nodes == Without(old(groups.list.nodes), k)
      ensures !last ==> groups.list.nodes == old(groups.list.nodes) && groups.list.contents == old(groups.list.contents)
      ensures !last ==> gn.interfaces.nodes ==
                        if NoIncludes(old(groups.table)[k].recs[j]) then Without(old(gn.interfaces.nodes), j)
                        else old(gn.interfaces.nodes)
    {
      hide GroupTable.Valid, Routes.MRouter.Valid, Keyed, Fits, Splice, CheckRoute, JoinsMatter, JoinedOn, Calls;
      ghost var t, r' := groups.table, groups.table[k].recs[j].(mode := Include);
      groups.RecordHere(gn, rn, k, j);
      SpliceTwice(t, k, j, r');
      last := false;
      var empty := SwitchAndRenew(gn, rn, k, j, now);
      if empty {
        EmptyNotJoined(groups.table, k, j, upstream);
        CallsWithout(groups.table, k, j, rn.ifindex);
        Routes.KeepsAfterRemoval(old(mrouter.kernel), mrouter.kernel, t, groups.table, k, j, downstream, now);
        last := RemoveRecord(gn, rn, k, j);
      }
    }

    /** The INCLUDE half of `loop_interface`: loop_source, and what `expire_source` does when it
        has deleted the last source. */
    method ExpireIncludes(gn: GroupNode, rn: GrpIntNode, ghost k: nat, ghost j: nat, now: int) returns (last: bool)
      requires Valid() && groups.Here(gn, rn, k, j) && groups.table[k].recs[j].mode == Include
      modifies Repr()
      ensures Valid() && Repr() == old(Repr())
      ensures Routes.KeepsRoutes(old(mrouter.kernel), mrouter.kernel, old(groups.table), groups.table, downstream, now)
      ensures groups.table == Splice(old(groups.table), k, j, Sweep(old(groups.table)[k].recs[j], now))
      ensures upstream == if Sweep(old(groups.table)[k].recs[j], now).Some? then old(upstream)
                          else old(upstream)[rn.ifindex := Calls(groups.table, rn.ifindex)]
      ensures last <==> Sweep(old(groups.table)[k].recs[j], now).None? && |old(groups.table)[k].recs| == 1
      ensures last ==> groups.list.nodes == Without(old(groups.list.nodes), k)
      ensures !last ==> groups.list.nodes == old(groups.list.nodes) && groups.list.contents == old(groups.list.contents)
      ensures !last ==> gn.interfaces.nodes ==
                        if Sweep(old(groups.table)[k].recs[j], now).None? then Without(old(gn.interfaces.nodes), j)
                        else old(gn.interfaces.nodes)
    {
      hide GroupTable.Valid, Routes.MRouter.Valid, Keyed, Fits, Splice, Unexpired, Wants, Calls, CheckRoute;
      groups.RecordHere(gn, rn, k, j);
      ghost var t, r := groups.table, groups.table[k].recs[j];
      ghost var swept := r.(includes := Unexpired(r.includes, now));
      UnexpiredWants(r, now);
      FitsAfterSplice(t, k, j, Some(swept), upstream);
      SpliceTwice(t, k, j, swept);
      last := false;
      var emptied := groups.ExpireIncludes(gn, rn, k, j, now);
      if emptied {
        last := RemoveAndRenew(gn, rn, k, j, now);
      }
    }

    /** The body of `loop_interface`. */
    method ExpireRecord(gn: GroupNode, rn: GrpIntNode, ghost k: nat, ghost j: nat, now: int) returns (last: bool)
      requires Valid() && groups.Here(gn, rn, k, j)
      modifies Repr()
      ensures Valid() && Repr() == old(Repr())
      ensures Routes.KeepsRoutes(old(mrouter.kernel), mrouter.kernel, old(groups.table), groups.table, downstream, now)
      ensures groups.table == Splice(old(groups.table), k, j, Sweep(old(groups.table)[k].recs[j], now))
      ensures var r := old(groups.table)[k].recs[j];
              upstream == if Sweep(r, now).None? || (r.mode == Exclude && r.filterTimer <= now)
                          then old(upstream)[rn.ifindex := Calls(groups.table, rn.ifindex)] else old(upstream)
      ensures last <==> Sweep(old(groups.table)[k].recs[j], now).None? && |old(groups.table)[k].recs| == 1
      ensures last ==> groups.list.nodes == Without(old(groups.list.nodes), k)
      ensures !last ==> groups.list.nodes == old(groups.list.nodes) && groups.list.contents == old(groups.list.contents)
      ensures !last ==> gn.interfaces.nodes ==
                        if Sweep(old(groups.table)[k].recs[j], now).None? then Without(old(gn.interfaces.nodes), j)
                        else old(gn.interfaces.nodes)
    {
      hide GroupTable.Valid, Routes.MRouter.Valid, Keyed, Fits, Splice, Unexpired, Routes.KeepsRoutes, Calls;
      groups.RecordHere(gn, rn, k, j);
      last := false;
      if rn.filterMode == Include {
        last := ExpireIncludes(gn, rn, k, j, now);
      } else if rn.filterTimer <= now {
        last := SwitchRecord(gn, rn, k, j, now);
      } else {
        SpliceSame(groups.table, k, j);
        Routes.KeepsAll(mrouter.kernel, groups.table, groups.table, downstream, now);
      }
    }

    /** `loop_interface`, deleting records from the list it walks; it breaks off when the group
        has gone. */
    method ExpireGroup(gn: GroupNode, ghost k: nat, now: int) returns (gone: bool)
      requires Valid() && k < |groups.table| && groups.list.contents[k] == gn
      modifies Repr()
      ensures Valid() && Repr() == old(Repr())
      ensures Routes.KeepsRoutes(old(mrouter.kernel), mrouter.kernel, old(groups.table), groups.table, downstream, now)
      ensures var g := old(groups.table)[k];
              groups.table == old(groups.table)[..k] + Kept(g, SweepRecs(g.recs, now)) + old(groups.table)[k + 1..]
      ensures gone <==> SweepRecs(old(groups.table)[k].recs, now) == []
      ensures groups.list.nodes == if gone then Without(old(groups.list.nodes), k) else old(groups.list.nodes)
    {
      hide GroupTable.Valid, Routes.MRouter.Valid, Keyed, Fits, Splice, SweepRecs, Partly, Between, Routes.KeepsRoutes;
      KeyedAt(groups.table, k);
      Routes.KeepsAll(mrouter.kernel, groups.table, groups.table, downstream, now);
      ghost var t, g := groups.table, groups.table[k];
      ghost var e: nat, j: nat := 0, 0;  // records visited, and records left of them
      gone := false;
      groups.GroupAt(gn, k);
      SweepStart(t, k, now);
      var in2 := gn.interfaces.head;
      while in2 != null && !gone
        invariant Valid() && Repr() == old(Repr())
        invariant Routes.KeepsRoutes(old(mrouter.kernel), mrouter.kernel, old(groups.table), groups.table, downstream, now)
        invariant e <= |g.recs| && Partly(t, k, now, groups.table, e, j)
        invariant gone <==> SweepRecs(g.recs[..e], now) + g.recs[e..] == []
        invariant gone ==> groups.list.nodes == Without(old(groups.list.nodes), k)
        invariant !gone ==> groups.list.nodes == old(groups.list.nodes) && groups.list.contents == old(groups.list.contents)
        invariant !gone ==> k < |groups.table| && j <= |groups.table[k].recs| && in2 == At(gn.interfaces.nodes, j)
        decreases |g.recs| - e
      {
        groups.CursorHere(gn, k, in2, j);
        PartlyAt(t, k, now, groups.table, e, j);
        PartlyStep(t, k, now, groups.table, e, j);
        NextAt(gn.interfaces.nodes, j);
        PartlyBetween(t, k, now, groups.table, e, j, downstream);
        ghost var u, routes := groups.table, mrouter.kernel;
        var copyNext := in2.next;
        gone := ExpireRecord(gn, in2.data, k, j, now);
        Routes.KeepsThrough(old(mrouter.kernel), routes, mrouter.kernel, t, u, groups.table, downstream, now);
        in2 := copyNext;
        j := if Sweep(g.recs[e], now).Some? then j + 1 else j;
        e := e + 1;
        if !gone {
          PartlyAt(t, k, now, groups.table, e, j);
        }
      }
      if !gone {
        groups.CursorHere(gn, k, in2, j);
      }
      PartlyDone(t, k, now, groups.table, e, j, gone);
    }

    /** `expire_sources`: `loop_group` around `loop_interface` around `loop_source`. */
    method ExpireSources(now: int)
      requires Valid()
      modifies Repr()
      ensures Valid() && Repr() == old(Repr())
      ensures Routes.KeepsRoutes(old(mrouter.kernel), mrouter.kernel, old(groups.table), groups.table, downstream, now)
      ensures groups.table == SweepTable(old(groups.table), now)
    {
      hide GroupTable.Valid, Routes.MRouter.Valid, Keyed, Fits, SweepTable, SweepRecs, Between, Routes.KeepsRoutes;
      ghost var t := groups.table;
      Routes.KeepsAll(mrouter.kernel, t, t, downstream, now);
      ghost var d: nat, k: nat := 0, 0;  // groups visited, and groups left of them
      SweepNothing(t, now);
      groups.TableStart();
      var in1 := groups.list.head;
      while in1 != null
        invariant Valid() && Repr() == old(Repr())
        invariant Routes.KeepsRoutes(old(mrouter.kernel), mrouter.kernel, old(groups.table), groups.table, downstream, now)
        invariant d <= |t| && groups.table == SweepTable(t[..d], now) + t[d..]
        invariant k == |SweepTable(t[..d], now)| && in1 == At(groups.list.nodes, k)
        decreases |t| - d
      {
        groups.CursorAt(in1, k);
        SweepOneMore(t, d, groups.table, now);
        NextAt(groups.list.nodes, k);
        SweepBetween(t, d, groups.table, now, downstream);
        ghost var u, routes := groups.table, mrouter.kernel;
        var copyNext := in1.next;
        var gone := ExpireGroup(in1.data, k, now);
        Routes.KeepsThrough(old(mrouter.kernel), routes, mrouter.kernel, t, u, groups.table, downstream, now);
        in1 := copyNext;
        d, k := d + 1, if gone then k else k + 1;
      }
      groups.CursorAt(in1, k);
      SweepAllDone(t, d, now);
    }

    // -------------------------------------------------------------- reports

    /** `handle_downstream_subscription`: `groupint_get`, then the transition of the record. */
    method HandleDownstream(g: Addr, i: int, ty: RecType, b: SrcList, now: int, heap: int) returns (q: seq<Query>)
      requires Linked() && Keyed(groups.table) && b.Valid() && b !in groups.Repr && b.Repr !! groups.Repr
      modifies groups, groups.Repr
      ensures Linked() && fresh(groups.Repr - old(groups.Repr)) && Keyed(groups.table)
      ensures groups.table == Report(old(groups.table), g, i, ty, View(b.contents), now, heap)
      ensures q == Emits(old(groups.table), Reported(g, i, ty, View(b.contents), now, heap)).queries
      ensures Answers(q, old(groups.table), g, i, ty, View(b.contents), heap)
    {
      hide GroupTable.Valid, Routes.MRouter.Valid, Keyed, Splice, View, Handle, Queries, Report, Lookup, List.Valid, Got, Answers;
      ghost var t, sources := groups.table, View(b.contents);
      EmitsAnswers(t, g, i, ty, sources, now, heap);
      ReportKeyed(t, g, i, ty, sources, now, heap);
      var gn, rn, k, j := groups.Get(g, i, now, heap);
      GotThenHandled(t, g, i, ty, sources, now, heap, k, j, groups.table);
      q := groups.HandleReport(gn, rn, k, j, ty, b, now);
    }

    /** `l4_ipv6_icmpv6_mld2_report`, from the bytes of the packet to the new state: each record
        is parsed and handled in turn, and its queries are those of the standard; then the
        upstream side is renewed and routes expire once more. */
    method ReceiveReport(i: int, mem: Reports.Memory, plen: int, now: int, heap: int -> int)
      returns (queries: seq<seq<Query>>)
      requires Valid()
      modifies Repr()
      ensures Valid() && fresh(Repr() - old(Repr())) && mrouter.kernel <= old(mrouter.kernel)
      ensures var run := Arrivals(i, Reports.Parse(mem, plen).0, now, heap);
              && groups.table == From(old(groups.table), run) && AllAnswered(queries, old(groups.table), run)
              && (run == [] ==> upstream == old(upstream) && mrouter.routes.contents == old(mrouter.routes.contents))
              && (run != [] ==>
                    && upstream == old(upstream)[i := Calls(groups.table, i)]
                    && mrouter.routes.contents ==
                       Routes.Passes(old(mrouter.routes.contents), Routes.WantedBy(groups.table, downstream, now), 2))
      ensures forall x :: x in old(mrouter.kernel) && CheckRoute(groups.table, downstream, x.src, x.grp, now) ==> x in mrouter.kernel
      ensures forall x :: x in old(mrouter.kernel) && x !in mrouter.kernel ==>
                var r := Lookup(groups.table, x.grp, downstream); r.None? || !Accepts(r.value, x.src, now)
    {
      hide GroupTable.Valid, Routes.MRouter.Valid, Keyed, FitsBut, Fits, List.Valid, CheckRoute, Lookup, Accepts, Calls;
      hide Reports.Parse, Reports.Joined, Arrivals, From, AllAnswered;
      var handleUpstream;
      handleUpstream, queries := HandleRecords(i, mem, plen, now, heap);
      if handleUpstream {
        RenewTwice(i, now);
      }
    }

    /** The loop over the records; says whether there was one. */
    method HandleRecords(i: int, mem: Reports.Memory, plen: int, now: int, heap: int -> int)
      returns (handleUpstream: bool, queries: seq<seq<Query>>)
      requires Valid()
      modifies groups, groups.Repr
      ensures Linked() && fresh(groups.Repr - old(groups.Repr)) && Keyed(groups.table)
      ensures FitsBut(groups.table, upstream, i) && (!handleUpstream ==> Valid())
      ensures var run := Arrivals(i, Reports.Parse(mem, plen).0, now, heap);
              && groups.table == From(old(groups.table), run) && AllAnswered(queries, old(groups.table), run)
              && (handleUpstream <==> run != []) && (run == [] ==> groups.table == old(groups.table))
    {
      hide GroupTable.Valid, Routes.MRouter.Valid, Keyed, FitsBut, Fits, View, Report, List.Valid, Answers, AllAnswered, Emits;
      hide Reports.ParseFrom, Reports.Parse, Reports.ReadBE, Reports.Joined, Arrivals, From;
      ghost var t := groups.table;
      ghost var records: seq<Reports.Applied> := [];
      queries, handleUpstream := [], false;
      NothingArrived(t, i, now, heap);
      FitsAllBut(t, upstream, i);
      var ngrec: nat := Reports.ReadBE(mem, 6, 2);
      Reports.ParseUnfold(mem, plen);
      if Reports.REPORT_HEADER + ngrec * Reports.RECORD_HEADER > plen {
        return;
      }
      var grec := Reports.REPORT_HEADER;
      while ngrec > 0
        invariant Linked() && fresh(groups.Repr - old(groups.Repr)) && Keyed(groups.table)
        invariant Reports.Parse(mem, plen) == Reports.Joined(records, Reports.ParseFrom(mem, plen, grec, ngrec))
        invariant groups.table == From(t, Arrivals(i, records, now, heap))
        invariant AllAnswered(queries, t, Arrivals(i, records, now, heap))
        invariant |queries| == |records| && (handleUpstream <==> records != [])
        invariant FitsBut(groups.table, upstream, i) && (records == [] ==> groups.table == t)
      {
        var r, list, next := Reports.NextRecord(mem, plen, grec, ngrec);
        if r.None? {
          break;
        }
        var g, ty := r.value.0, r.value.1;
        ghost var one: Reports.Applied := (g, ty, View(list.contents));
        Reports.JoinedNext(records, one, Reports.ParseFrom(mem, plen, next, ngrec - 1));
        ReportFits(groups.table, g, i, ty, one.2, now, heap(|records|), upstream);
        ArrivalsSnoc(t, i, records, one, now, heap);
        var q := HandleDownstream(g, i, ty, list, now, heap(|queries|));
        AnsweredSnoc(queries, q, t, Arrivals(i, records, now, heap), Reported(g, i, ty, one.2, now, heap(|records|)));
        queries := queries + [q];
        records := records + [one];
        handleUpstream := true;
        grec, ngrec := next, ngrec - 1;
      }
      Reports.ParseNone(mem, plen, grec);
      Reports.JoinedLast(records, grec);
    }

    /** The end of the report handler: `handle_upstream_subscription`, which ends with
        `expire_routes`, and `expire_routes` once more. */
    method RenewTwice(i: int, now: int)
      requires Linked() && Keyed(groups.table) && FitsBut(groups.table, upstream, i)
      modifies `upstream, mrouter, mrouter.routes, mrouter.routes.Repr
      ensures Valid() && mrouter.routes.Repr == old(mrouter.routes.Repr) && mrouter.kernel <= old(mrouter.kernel)
      ensures upstream == old(upstream)[i := Calls(groups.table, i)]
      ensures mrouter.routes.contents ==
              Routes.Passes(old(mrouter.routes.contents), Routes.WantedBy(groups.table, downstream, now), 2)
      ensures forall x :: x in old(mrouter.kernel) && CheckRoute(groups.table, downstream, x.src, x.grp, now) ==> x in mrouter.kernel
      ensures forall x :: x in old(mrouter.kernel) && x !in mrouter.kernel ==>
                var r := Lookup(groups.table, x.grp, downstream); r.None? || !Accepts(r.value, x.src, now)
    {
      hide GroupTable.Valid, Routes.MRouter.Valid, Keyed, FitsBut, Fits, Calls, Routes.Pass, CheckRoute, Lookup, Accepts;
      ghost var up, l := upstream, mrouter.routes.contents;
      HandleUpstream(i, now);
      FitsAfterRebuild(groups.table, up, i, upstream);
      mrouter.ExpireRoutes(groups, downstream, now);
      AllRefused(groups.table, downstream, now);
      Routes.TwoPasses(l, Routes.WantedBy(groups.table, downstream, now));
    }

    /** An upcall of the kernel: a packet that no forwarding entry covers. */
    method Upcall(mif: int, src: Addr, dst: Addr, now: int)
      requires Valid()
      modifies mrouter, mrouter.routes, mrouter.routes.Repr
      ensures Valid() && fresh(mrouter.routes.Repr - old(mrouter.routes.Repr)) && upstream == old(upstream)
      ensures mrouter.kernel == old(mrouter.kernel) +
                if IsMulticast(dst) && !IsLocalMulticast(dst) && mif == 0 && CheckRoute(groups.table, downstream, src, dst, now)
                then {Routes.Route(0, src, dst)} else {}
    {
      hide GroupTable.Valid, Routes.MRouter.Valid, Keyed, Fits, CheckRoute;
      mrouter.Upcall(groups, downstream, mif, src, dst, now);
    }

    // -------------------------------------------------------------- forwarding

    /** `list_hasmember` of the include list for the source of a packet, and `expire_source` on
        what it finds: whether there was such a source, and whether the record has gone. */
    method ExpireSource(gn: GroupNode, rn: GrpIntNode, ghost k: nat, ghost j: nat, s: Addr, now: int)
      returns (found: bool, gone: bool)
      requires Valid() && groups.Here(gn, rn, k, j) && groups.table[k].recs[j].mode == Include
      modifies Repr()
      ensures Valid() && Repr() == old(Repr())
      ensures Routes.KeepsRoutes(old(mrouter.kernel), mrouter.kernel, old(groups.table), groups.table, downstream, now)
      ensures found <==> s in Addrs(old(groups.table)[k].recs[j].includes)
      ensures !found ==> groups.table == old(groups.table) && groups.list.contents == old(groups.list.contents)
                         && gn.interfaces.nodes == old(gn.interfaces.nodes)
      ensures found ==> var left := ExpireOne(old(groups.table)[k].recs[j], s, now);
                        && groups.table == Splice(old(groups.table), k, j, left) && (gone <==> left.None?)
                        && upstream == if gone then old(upstream)[rn.ifindex := Calls(groups.table, rn.ifindex)]
                                       else old(upstream)
    {
      hide GroupTable.Valid, Routes.MRouter.Valid, Keyed, Fits, Splice, WithoutExpired, ExpireOne, Wants, Addrs, Calls, CheckRoute;
      ghost var t, r := groups.table, groups.table[k].recs[j];
      groups.RecordHere(gn, rn, k, j);
      found, gone := groups.ExpireMember(gn, rn, k, j, s, now);
      if found {
        ghost var left := WithoutExpired(r, s, now);
        WithoutExpiredWants(r, s, now);
        FitsAfterSplice(t, k, j, Some(left), upstream);
        SpliceTwice(t, k, j, left);
        if gone {
          var _ := RemoveAndRenew(gn, rn, k, j, now);
        }
      }
    }

    /** One round of the loop of `l4_ipv6_multicast`; `done` is its `break`. */
    method VisitRecord(gn: GroupNode, rn: GrpIntNode, ghost k: nat, ghost t: seq<Group>, ghost e: nat, ghost p: seq<Record>,
                       ghost before: set<Routes.Route>, from: int, s: Addr, now: int)
      returns (done: bool, sent: Option<int>, ghost p': seq<Record>)
      requires Keyed(t) && Routes.KeepsRoutes(before, mrouter.kernel, t, groups.table, downstream, now)
      requires Valid() && groups.Here(gn, rn, k, |p|) && Midway(t, k, groups.table, e, p, from, s, now) && e < |t[k].recs|
      modifies Repr()
      ensures Valid() && Repr() == old(Repr())
      ensures Routes.KeepsRoutes(before, mrouter.kernel, t, groups.table, downstream, now)
      ensures done ==> (groups.table, sent) == Outcome(t, k, from, s, now)
      ensures !done ==> sent == None && Midway(t, k, groups.table, e + 1, p', from, s, now)
      ensures !done ==> groups.list.contents == old(groups.list.contents)
      ensures !done ==> At(gn.interfaces.nodes, |p'|) == old(At(gn.interfaces.nodes, |p| + 1))
    {
      hide GroupTable.Valid, Routes.MRouter.Valid, Keyed, Fits, Splice, Outcome, Midway, Addrs, ExpireOne, GrpIntNode.Valid;
      hide Between, Routes.KeepsRoutes, Calls, ForwardRecs;
      ghost var u, routes := groups.table, mrouter.kernel;
      groups.RecordHere(gn, rn, k, |p|);
      MidwayAt(t, k, groups.table, e, p, from, s, now);
      MidwaySplice(t, k, groups.table, e, p, from, s, now, None);
      ghost var r := t[k].recs[e];
      done, sent, p' := false, None, p + [r];
      if rn.ifindex == from {
        VisitPass(t, k, groups.table, e, p, from, s, now);
      } else if rn.filterMode == Include {
        MidwayBetween(t, k, u, e, p, from, s, now, ExpireOpt(r, s, now), downstream);
        var found, gone := ExpireSource(gn, rn, k, |p|, s, now);
        if found {
          VisitInclude(t, k, u, e, p, from, s, now);
          Routes.KeepsThrough(before, routes, mrouter.kernel, t, u, groups.table, downstream, now);
          done, sent := true, if gone then None else Some(rn.ifindex);
        } else {
          VisitPass(t, k, u, e, p, from, s, now);
          Routes.KeepsSame(before, routes, mrouter.kernel, t, u, downstream, now);
        }
      } else if rn.filterTimer <= now {
        VisitExclude(t, k, groups.table, e, p, from, s, now);
        NextAt(gn.interfaces.nodes, |p|);
        MidwayBetween(t, k, u, e, p, from, s, now, SwitchToInclude(r), downstream);
        done := SwitchRecord(gn, rn, k, |p|, now);
        Routes.KeepsThrough(before, routes, mrouter.kernel, t, u, groups.table, downstream, now);
        p' := p + OptSeq(SwitchToInclude(r));
      } else {
        var blocked := rn.IsBlocked(s);
        if blocked {
          VisitPass(t, k, groups.table, e, p, from, s, now);
        } else {
          VisitSend(t, k, groups.table, e, p, from, s, now);
          done, sent := true, Some(rn.ifindex);
        }
      }
    }

    /** The loop of `l4_ipv6_multicast` over the records of the packet's group. */
    method ForwardGroup(gn: GroupNode, ghost k: nat, from: int, s: Addr, now: int) returns (sent: Option<int>)
      requires Valid() && k < |groups.table| && groups.list.contents[k] == gn
      modifies Repr()
      ensures Valid() && Repr() == old(Repr())
      ensures Routes.KeepsRoutes(old(mrouter.kernel), mrouter.kernel, old(groups.table), groups.table, downstream, now)
      ensures (groups.table, sent) == Outcome(old(groups.table), k, from, s, now)
    {
      hide GroupTable.Valid, Routes.MRouter.Valid, Keyed, Fits, Outcome, Midway, ForwardRecs, SwitchToInclude, Addrs, Kept, Routes.KeepsRoutes;
      ghost var t := groups.table;
      ghost var e: nat, p: seq<Record> := 0, [];  // records passed, and records left of them
      KeyedAt(t, k);
      Routes.KeepsAll(mrouter.kernel, t, t, downstream, now);
      MidwayStart(t, k, from, s, now);
      groups.GroupAt(gn, k);
      sent := None;
      var ln := gn.interfaces.head;
      while ln != null
        invariant Valid() && Repr() == old(Repr())
        invariant Routes.KeepsRoutes(old(mrouter.kernel), mrouter.kernel, t, groups.table, downstream, now)
        invariant sent == None && Midway(t, k, groups.table, e, p, from, s, now)
        invariant groups.list.contents == old(groups.list.contents) && ln == At(gn.interfaces.nodes, |p|)
        decreases |t[k].recs| - e
      {
        MidwayAt(t, k, groups.table, e, p, from, s, now);
        groups.CursorHere(gn, k, ln, |p|);
        var copyNext, done := ln.next, false;
        done, sent, p := VisitRecord(gn, ln.data, k, t, e, p, old(mrouter.kernel), from, s, now);
        if done {
          return;
        }
        ln := copyNext;
        e := e + 1;
      }
      MidwayAt(t, k, groups.table, e, p, from, s, now);
      groups.CursorHere(gn, k, ln, |p|);
      MidwayEnd(t, k, groups.table, e, p, from, s, now);
    }

    /** `l4_ipv6_multicast` for a packet from `s` to group `g` that came in on `from`. */
    method Multicast(from: int, s: Addr, g: Addr, now: int) returns (sent: Option<int>)
      requires Valid()
      modifies Repr()
      ensures Valid() && Repr() == old(Repr())
      ensures Routes.KeepsRoutes(old(mrouter.kernel), mrouter.kernel, old(groups.table), groups.table, downstream, now)
      ensures (groups.table, sent) ==
              if Forwardable(s, g) then Forward(old(groups.table), from, s, g, now) else (old(groups.table), None)
    {
      hide GroupTable.Valid, Routes.MRouter.Valid, Keyed, Fits, Forward, Outcome, Forwardable, Routes.KeepsRoutes;
      sent := None;
      Routes.KeepsAll(mrouter.kernel, groups.table, groups.table, downstream, now);
      if Forwardable(s, g) {
        var gn, k := groups.FindGroup(g);
        ForwardAt(groups.table, k, from, s, g, now);
        if gn != null {
          sent := ForwardGroup(gn, k, from, s, now);
        }
      }
    }

    /** The same from the bytes of the IPv6 header.  Between two interfaces a packet is sent to
        the other one if and only if its header passes the address checks and the record there
        lets the source through, unless the source was the last one and has just expired. */
    method ForwardPacket(from: int, mem: Reports.Memory, now: int) returns (sent: Option<int>)
      requires Valid()
      modifies Repr()
      ensures Valid() && Repr() == old(Repr())
      ensures Routes.KeepsRoutes(old(mrouter.kernel), mrouter.kernel, old(groups.table), groups.table, downstream, now)
      ensures (groups.table, sent) ==
              if Routable(mem) then Forward(old(groups.table), from, Reports.ReadAddr(mem, 8), Reports.ReadAddr(mem, 24), now)
              else (old(groups.table), None)
      ensures forall down :: TwoInterfaces(old(groups.table), from, down) ==>
                var s, r := Reports.ReadAddr(mem, 8), Lookup(old(groups.table), Reports.ReadAddr(mem, 24), down);
                sent == Some(down) <==> Routable(mem) && r.Some? && Accepts(r.value, s, now) && !SoleExpired(r.value, now)
      ensures forall down :: TwoInterfaces(old(groups.table), from, down) && Routable(mem) ==>
                var r := Lookup(old(groups.table), Reports.ReadAddr(mem, 24), down);
                r.Some? && r.value.mode == Exclude && r.value.excludes == [] && r.value.filterTimer > now
                ==> sent == Some(down)
    {
      hide Linked, Keyed, Fits, Forward, Forwardable, Reports.ReadAddr, Lookup, TwoInterfaces, Accepts, SoleExpired, Routable, Routes.KeepsRoutes;
      var s, g := Reports.ReadAddr(mem, 8), Reports.ReadAddr(mem, 24);
      RoutableHeader(mem);
      SentTo(groups.table, from, s, g, now);
      sent := Multicast(from, s, g, now);
    }
  }

  /** The address checks at the head of `l4_ipv6_multicast`, on the bytes of the IPv6 header: the
      source is at offset 8, the destination at offset 24. */
  ghost predicate Routable(mem: Reports.Memory) {
    && mem(8) != 0xff && !AllZero(Bytes(mem, 8, 16)) && !AllZero(Bytes(mem, 24, 16))
    && !(mem(8) == 0xfe && mem(9) / 64 == 2)
    && !(mem(24) == 0xff && mem(25) % 16 in {1, 2})
  }

  /** Where the forwarder sends between two interfaces. */
  lemma SentTo(t: seq<Group>, from: int, s: Addr, g: Addr, now: int)
    requires Keyed(t)
    ensures forall down :: TwoInterfaces(t, from, down) ==>
              var r, sent := Lookup(t, g, down), Forward(t, from, s, g, now).1;
              && (sent == Some(down) <==> r.Some? && Accepts(r.value, s, now) && !SoleExpired(r.value, now))
              && (r.Some? && r.value.mode == Exclude && r.value.excludes == [] && r.value.filterTimer > now
                  ==> sent == Some(down))
  {
    forall down | TwoInterfaces(t, from, down)
      ensures var r, sent := Lookup(t, g, down), Forward(t, from, s, g, now).1;
              && (sent == Some(down) <==> r.Some? && Accepts(r.value, s, now) && !SoleExpired(r.value, now))
              && (r.Some? && r.value.mode == Exclude && r.value.excludes == [] && r.value.filterTimer > now
                  ==> sent == Some(down))
    {
      AllWanted(Lookup(t, g, down), s, now);
      FastPathIsSlowPath(t, from, down, s, g, now);
      CheckRouteMeaning(t, down, s, g, now);
    }
  }

  /** A running EXCLUDE record of nothing lets every source through. */
  lemma AllWanted(r: Option<Record>, s: Addr, now: int)
    ensures r.Some? && r.value.mode == Exclude && r.value.excludes == [] && r.value.filterTimer > now
            ==> Accepts(r.value, s, now) && !SoleExpired(r.value, now)
  {
    assert r.Some? && r.value.excludes == [] ==> Addrs(r.value.excludes) == {};
  }

  lemma RoutableHeader(mem: Reports.Memory)
    ensures Routable(mem) <==> Forwardable(Reports.ReadAddr(mem, 8), Reports.ReadAddr(mem, 24))
  {
    ForwardableBytes(mem);
  }

  // ---------------------------------------------------------------- the first report

  /** A report with one record for group `g` that names source `s`. */
  function Single(t: RecType, g: Addr, s: Addr): seq<Reports.WireRecord> {
    [Reports.Fields(Reports.Of(t), g, [s], [])]
  }

  /** What that report is to an empty table. */
  lemma SingleApplied(mem: Reports.Memory, t: RecType, g: Addr, s: Addr, checksum: word, i: int, now: int, heap: int -> int)
    requires !IsLocalMulticast(g) && Reports.Holds(mem, 0, Reports.WriteReport(Single(t, g, s), checksum))
    ensures mem(8) == Reports.KindByte(Reports.Of(t))
    ensures var run := Arrivals(i, Reports.Parse(mem, 44).0, now, heap);
            Lookup(From([], run), g, i) == Some(Handle(Fresh(i, heap(0)), t, [Source(s, 0)], now))
  {
    var rs := Single(t, g, s);
    var d := Reports.WriteReport(rs, checksum);
    SingleBytes(t, g, s, checksum);
    assert mem(0 + 8) == d[8];
    Reports.ParseInvertsWrite(mem, rs, checksum);
    hide Reports.Parse, Reports.WriteReport, Reports.Holds, IsLocalMulticast;
    SingleList(s);
    assert rs[1..] == [] && Reports.Accepted(rs) == [(g, t, [Source(s, 0)])];
    ArrivalsSnoc([], i, [], (g, t, [Source(s, 0)]), now, heap);
    NothingArrived([], i, now, heap);
    assert [] + [(g, t, [Source(s, 0)])] == Reports.Accepted(rs);
    ReportMeaning([], g, i, t, [Source(s, 0)], now, heap(0), g, i);
  }

  lemma SingleBytes(t: RecType, g: Addr, s: Addr, checksum: word)
    ensures var d := Reports.WriteReport(Single(t, g, s), checksum);
            |d| == 44 && d[8] == Reports.KindByte(Reports.Of(t))
  {
    var rs := Single(t, g, s);
    hide Reports.WriteBE, Reports.WriteBody, Reports.KindByte;
    assert rs[1..] == [] && Reports.WriteRecords(rs) == Reports.WriteRecord(rs[0]) + [];
  }

  lemma SingleList(s: Addr)
    ensures AddNew([], Reports.Sourced([s])) == [Source(s, 0)]
  {
    var one := Reports.Sourced([s]);
    assert one == [Source(s, 0)] && one[1..] == [] && [] + [one[0]] == one;
  }

  /** Type 1 on the wire makes an INCLUDE record of the source. */
  lemma FirstInclude(mem: Reports.Memory, g: Addr, s: Addr, checksum: word, i: int, now: int, heap: int -> int)
    requires !IsLocalMulticast(g) && Reports.Holds(mem, 0, Reports.WriteReport(Single(IsIn, g, s), checksum))
    ensures mem(8) == 1
    ensures var st := Lookup(From([], Arrivals(i, Reports.Parse(mem, 44).0, now, heap)), g, i);
            st.Some? && st.value.mode == Include && Addrs(st.value.includes) == {s}
  {
    var one, r := [Source(s, 0)], Fresh(i, heap(0));
    SingleApplied(mem, IsIn, g, s, checksum, i, now, heap);
    hide Lookup, From, Arrivals, Reports.Parse, Reports.WriteReport, Reports.Holds, IsLocalMulticast;
    assert Addrs(one) == {s} by { assert one[0] in one; }
    Rfc3810.HandleIsCodeRow(r, IsIn, one, now);
    Rfc3810.TimersKeys(Handle(r, IsIn, one, now).includes);
  }

  /** Type 2 makes an EXCLUDE record that keeps the source out for 260 seconds. */
  lemma FirstExclude(mem: Reports.Memory, g: Addr, s: Addr, checksum: word, i: int, now: int, heap: int -> int)
    requires !IsLocalMulticast(g) && Reports.Holds(mem, 0, Reports.WriteReport(Single(IsEx, g, s), checksum))
    ensures mem(8) == 2
    ensures var st := Lookup(From([], Arrivals(i, Reports.Parse(mem, 44).0, now, heap)), g, i);
            st.Some? && st.value.mode == Exclude && Addrs(st.value.excludes) == {s} && st.value.filterTimer == now + 260
  {
    var one, r := [Source(s, 0)], Fresh(i, heap(0));
    SingleApplied(mem, IsEx, g, s, checksum, i, now, heap);
    hide Lookup, From, Arrivals, Reports.Parse, Reports.WriteReport, Reports.Holds, IsLocalMulticast;
    assert Addrs(one) == {s} by { assert one[0] in one; }
    Rfc3810.HandleIsCodeRow(r, IsEx, one, now);
  }
}
