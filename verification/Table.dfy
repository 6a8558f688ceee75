/** The group table: groups, and in each group one record per interface.  Values only;
    Conf.dfy proves the loops of src/groups.c, src/mld2_logic.c, src/ecmh.c and
    src/kernel_routing.c equal to the functions here. */
module Table {
  import opened Sources
  import opened Mld2
  import opened Rfc3810
  import opened Lease
  import opened Lapse

  /** `struct groupnode`, without its packet counters. */
  datatype Group = Group(mca: Addr, recs: seq<Record>, lastForward: int)

  // ---------------------------------------------------------------- lookup

  /** `grpint_find`. */
  function FindRec(recs: seq<Record>, i: int): Option<Record> {
    if recs == [] then None
    else if recs[0].ifindex == i then Some(recs[0])
    else FindRec(recs[1..], i)
  }

  /** `group_find`, then `grpint_find`. */
  function Lookup(t: seq<Group>, g: Addr, i: int): Option<Record> {
    if t == [] then None
    else if t[0].mca == g then FindRec(t[0].recs, i)
    else Lookup(t[1..], g, i)
  }

  /** Each group once, each interface once in its group, and no group without interfaces. */
  ghost predicate Keyed(t: seq<Group>) {
    && (forall i, j :: 0 <= i < j < |t| ==> t[i].mca != t[j].mca)
    && (forall i :: 0 <= i < |t| ==> KeyedRecs(t[i].recs) && t[i].recs != [])
  }

  ghost predicate KeyedRecs(recs: seq<Record>) {
    forall i, j :: 0 <= i < j < |recs| ==> recs[i].ifindex != recs[j].ifindex
  }

  predicate HasRec(recs: seq<Record>, i: int) {
    exists k :: 0 <= k < |recs| && recs[k].ifindex == i
  }

  predicate HasGroup(t: seq<Group>, g: Addr) {
    exists k :: 0 <= k < |t| && t[k].mca == g
  }

  lemma {:induction false} FindRecSome(recs: seq<Record>, i: int)
    ensures FindRec(recs, i).Some? <==> HasRec(recs, i)
  {
    if recs != [] {
      FindRecSome(recs[1..], i);
      if HasRec(recs, i) && recs[0].ifindex != i {
        var k :| 0 <= k < |recs| && recs[k].ifindex == i;
        assert recs[1..][k - 1].ifindex == i;
      }
      if HasRec(recs[1..], i) {
        var k :| 0 <= k < |recs[1..]| && recs[1..][k].ifindex == i;
        assert recs[k + 1].ifindex == i;
      }
    }
  }

  lemma {:induction false} LookupNone(t: seq<Group>, g: Addr, i: int)
    requires !HasGroup(t, g)
    ensures Lookup(t, g, i) == None
  {
    if t != [] {
      assert t[0].mca != g;
      forall k | 0 <= k < |t[1..]| ensures t[1..][k].mca != g {
        assert t[1..][k] == t[k + 1];
      }
      LookupNone(t[1..], g, i);
    }
  }

  lemma KeyedTail(t: seq<Group>)
    requires Keyed(t) && t != []
    ensures Keyed(t[1..]) && !HasGroup(t[1..], t[0].mca) && KeyedRecs(t[0].recs) && t[0].recs != []
  {
  }

  lemma KeyedAt(t: seq<Group>, k: nat)
    requires Keyed(t) && k < |t|
    ensures KeyedRecs(t[k].recs) && t[k].recs != []
  {
  }

  lemma KeyedRecsTail(recs: seq<Record>)
    requires KeyedRecs(recs) && recs != []
    ensures KeyedRecs(recs[1..]) && !HasRec(recs[1..], recs[0].ifindex)
  {
  }

  lemma KeyedCons(a: Group, t: seq<Group>)
    requires Keyed(t) && !HasGroup(t, a.mca) && KeyedRecs(a.recs) && a.recs != []
    ensures Keyed([a] + t)
  {
    forall k | 0 <= k < |t| ensures t[k].mca != a.mca {
    }
  }

  lemma KeyedRecsCons(r: Record, recs: seq<Record>)
    requires KeyedRecs(recs) && !HasRec(recs, r.ifindex)
    ensures KeyedRecs([r] + recs)
  {
    forall k | 0 <= k < |recs| ensures recs[k].ifindex != r.ifindex {
    }
  }

  // ---------------------------------------------------------------- reports

  function ReportRecs(recs: seq<Record>, i: int, ty: RecType, b: seq<Source>, now: int, heap: int): seq<Record> {
    if recs == [] then [Handle(Fresh(i, heap), ty, b, now)]
    else if recs[0].ifindex == i then [Handle(recs[0], ty, b, now)] + recs[1..]
    else [recs[0]] + ReportRecs(recs[1..], i, ty, b, now, heap)
  }

  /** `groupint_get` (find or create, both levels), then the transition on the record. */
  function Report(t: seq<Group>, g: Addr, i: int, ty: RecType, b: seq<Source>, now: int, heap: int): seq<Group> {
    if t == [] then [Group(g, ReportRecs([], i, ty, b, now, heap), now)]
    else if t[0].mca == g then [Group(g, ReportRecs(t[0].recs, i, ty, b, now, heap), now)] + t[1..]
    else [t[0]] + Report(t[1..], g, i, ty, b, now, heap)
  }

  lemma HandleKeepsIfindex(r: Record, ty: RecType, b: seq<Source>, now: int)
    ensures Handle(r, ty, b, now).ifindex == r.ifindex
  {
  }

  lemma {:induction false} ReportRecsMeaning(recs: seq<Record>, i: int, ty: RecType, b: seq<Source>, now: int, heap: int, j: int)
    ensures var prev := FindRec(recs, i);
            FindRec(ReportRecs(recs, i, ty, b, now, heap), j) ==
            if j == i then Some(Handle(if prev.Some? then prev.value else Fresh(i, heap), ty, b, now))
            else FindRec(recs, j)
  {
    if recs == [] {
      HandleKeepsIfindex(Fresh(i, heap), ty, b, now);
    } else if recs[0].ifindex == i {
      HandleKeepsIfindex(recs[0], ty, b, now);
    } else {
      ReportRecsMeaning(recs[1..], i, ty, b, now, heap, j);
    }
  }

  lemma {:induction false} ReportRecsKeyed(recs: seq<Record>, i: int, ty: RecType, b: seq<Source>, now: int, heap: int)
    requires KeyedRecs(recs)
    ensures KeyedRecs(ReportRecs(recs, i, ty, b, now, heap)) && ReportRecs(recs, i, ty, b, now, heap) != []
  {
    if recs != [] {
      KeyedRecsTail(recs);
      HandleKeepsIfindex(recs[0], ty, b, now);
      if recs[0].ifindex == i {
        KeyedRecsCons(Handle(recs[0], ty, b, now), recs[1..]);
      } else {
        var rest := ReportRecs(recs[1..], i, ty, b, now, heap);
        ReportRecsKeyed(recs[1..], i, ty, b, now, heap);
        ReportRecsMeaning(recs[1..], i, ty, b, now, heap, recs[0].ifindex);
        FindRecSome(recs[1..], recs[0].ifindex);
        FindRecSome(rest, recs[0].ifindex);
        KeyedRecsCons(recs[0], rest);
      }
    }
  }

  /** A report reaches the one record of its group and interface, made if it was missing,
      and no other. */
  lemma {:induction false} ReportMeaning(t: seq<Group>, g: Addr, i: int, ty: RecType, b: seq<Source>, now: int, heap: int, h: Addr, j: int)
    ensures var prev := Lookup(t, g, i);
            Lookup(Report(t, g, i, ty, b, now, heap), h, j) ==
            if h == g && j == i then Some(Handle(if prev.Some? then prev.value else Fresh(i, heap), ty, b, now))
            else Lookup(t, h, j)
  {
    if t == [] {
      ReportRecsMeaning([], i, ty, b, now, heap, j);
    } else if t[0].mca == g {
      ReportRecsMeaning(t[0].recs, i, ty, b, now, heap, j);
    } else {
      ReportMeaning(t[1..], g, i, ty, b, now, heap, h, j);
    }
  }

  lemma {:induction false} ReportGroups(t: seq<Group>, g: Addr, i: int, ty: RecType, b: seq<Source>, now: int, heap: int, h: Addr)
    requires h != g
    ensures HasGroup(Report(t, g, i, ty, b, now, heap), h) <==> HasGroup(t, h)
  {
    var r := Report(t, g, i, ty, b, now, heap);
    if t != [] {
      if t[0].mca == g {
        assert r[1..] == t[1..];
      } else {
        ReportGroups(t[1..], g, i, ty, b, now, heap, h);
        assert r[1..] == Report(t[1..], g, i, ty, b, now, heap);
      }
      HasGroupCons(t, h);
    }
    HasGroupCons(r, h);
  }

  lemma HasGroupCons(t: seq<Group>, h: Addr)
    requires t != []
    ensures HasGroup(t, h) <==> t[0].mca == h || HasGroup(t[1..], h)
  {
    if HasGroup(t, h) && t[0].mca != h {
      var k :| 0 <= k < |t| && t[k].mca == h;
      assert t[1..][k - 1].mca == h;
    }
    if HasGroup(t[1..], h) {
      var k :| 0 <= k < |t[1..]| && t[1..][k].mca == h;
      assert t[k + 1].mca == h;
    }
  }

  lemma {:induction false} ReportKeyed(t: seq<Group>, g: Addr, i: int, ty: RecType, b: seq<Source>, now: int, heap: int)
    requires Keyed(t)
    ensures Keyed(Report(t, g, i, ty, b, now, heap))
  {
    if t == [] {
      ReportRecsKeyed([], i, ty, b, now, heap);
    } else {
      KeyedTail(t);
      if t[0].mca == g {
        ReportRecsKeyed(t[0].recs, i, ty, b, now, heap);
        KeyedCons(Group(g, ReportRecs(t[0].recs, i, ty, b, now, heap), now), t[1..]);
      } else {
        ReportKeyed(t[1..], g, i, ty, b, now, heap);
        ReportGroups(t[1..], g, i, ty, b, now, heap, t[0].mca);
        KeyedCons(t[0], Report(t[1..], g, i, ty, b, now, heap));
      }
    }
  }

  // ---------------------------------------------------------------- sweeps

  function OptSeq(r: Option<Record>): seq<Record> {
    if r.Some? then [r.value] else []
  }

  function SweepRecs(recs: seq<Record>, now: int): seq<Record> {
    if recs == [] then [] else OptSeq(Sweep(recs[0], now)) + SweepRecs(recs[1..], now)
  }

  /** A group goes with its last record. */
  function Kept(a: Group, recs: seq<Record>): seq<Group> {
    if recs == [] then [] else [a.(recs := recs)]
  }

  /** `expire_sources`. */
  function SweepTable(t: seq<Group>, now: int): seq<Group> {
    if t == [] then [] else Kept(t[0], SweepRecs(t[0].recs, now)) + SweepTable(t[1..], now)
  }

  function SweepOpt(r: Option<Record>, now: int): Option<Record> {
    if r.Some? then Sweep(r.value, now) else None
  }

  lemma SweepKeepsIfindex(r: Record, now: int)
    ensures Sweep(r, now).Some? ==> Sweep(r, now).value.ifindex == r.ifindex
  {
  }

  lemma {:induction false} SweepRecsMeaning(recs: seq<Record>, now: int, i: int)
    requires KeyedRecs(recs)
    ensures FindRec(SweepRecs(recs, now), i) == SweepOpt(FindRec(recs, i), now)
    ensures KeyedRecs(SweepRecs(recs, now))
  {
    if recs != [] {
      KeyedRecsTail(recs);
      SweepRecsMeaning(recs[1..], now, i);
      SweepRecsMeaning(recs[1..], now, recs[0].ifindex);
      SweepKeepsIfindex(recs[0], now);
      FindRecSome(recs[1..], recs[0].ifindex);
      var rest := SweepRecs(recs[1..], now);
      FindRecSome(rest, recs[0].ifindex);
      if Sweep(recs[0], now).Some? {
        KeyedRecsCons(Sweep(recs[0], now).value, rest);
        assert SweepRecs(recs, now)[1..] == rest;
      } else {
        assert SweepRecs(recs, now) == rest;
      }
    }
  }

  lemma {:induction false} SweepGroups(t: seq<Group>, now: int, g: Addr)
    ensures HasGroup(SweepTable(t, now), g) ==> HasGroup(t, g)
  {
    if t != [] {
      SweepGroups(t[1..], now, g);
      HasGroupCons(t, g);
      var recs, rest := SweepRecs(t[0].recs, now), SweepTable(t[1..], now);
      if recs == [] {
        assert SweepTable(t, now) == rest;
      } else {
        HasGroupCons(SweepTable(t, now), g);
        assert SweepTable(t, now)[1..] == rest;
      }
    }
  }

  /** The sweep of a table is the sweep of every record, and keeps the keys unique. */
  lemma {:induction false} SweepMeaning(t: seq<Group>, now: int, g: Addr, i: int)
    requires Keyed(t)
    ensures Lookup(SweepTable(t, now), g, i) == SweepOpt(Lookup(t, g, i), now)
    ensures Keyed(SweepTable(t, now))
  {
    if t != [] {
      KeyedTail(t);
      SweepMeaning(t[1..], now, g, i);
      SweepRecsMeaning(t[0].recs, now, i);
      SweepGroups(t[1..], now, t[0].mca);
      LookupNone(t[1..], t[0].mca, i);
      var recs, rest := SweepRecs(t[0].recs, now), SweepTable(t[1..], now);
      if recs == [] {
        assert SweepTable(t, now) == rest;
        LookupNone(rest, t[0].mca, i);
      } else {
        KeyedCons(t[0].(recs := recs), rest);
        assert SweepTable(t, now)[1..] == rest;
      }
    }
  }

  // ---------------------------------------------------------------- forwarding

  function Before(first: seq<Record>, p: (seq<Record>, Option<int>)): (seq<Record>, Option<int>) {
    (first + p.0, p.1)
  }

  /** The loop of `l4_ipv6_multicast` over the records of the group: the records after it,
      and the interface the packet was sent to. */
  function ForwardRecs(recs: seq<Record>, from: int, s: Addr, now: int): (seq<Record>, Option<int>) {
    if recs == [] then ([], None)
    else
      var r := recs[0];
      if r.ifindex == from || (r.mode == Include && s !in Addrs(r.includes)) then
        Before([r], ForwardRecs(recs[1..], from, s, now))
      else if r.mode == Include then
        var left := ExpireOne(r, s, now);
        // A source that has expired, but was not the last one, lets this packet through.
        (OptSeq(left) + recs[1..], if left.Some? then Some(r.ifindex) else None)
      else if r.filterTimer <= now then
        Before(OptSeq(SwitchToInclude(r)), ForwardRecs(recs[1..], from, s, now))
      else if s in Addrs(r.excludes) then
        Before([r], ForwardRecs(recs[1..], from, s, now))
      else (recs, Some(r.ifindex))
  }

  /** `l4_ipv6_multicast` for a packet that passes its address checks. */
  function Forward(t: seq<Group>, from: int, s: Addr, g: Addr, now: int): (seq<Group>, Option<int>) {
    if t == [] then ([], None)
    else if t[0].mca == g then
      var (recs, sent) := ForwardRecs(t[0].recs, from, s, now);
      (Kept(t[0], recs) + t[1..], sent)
    else
      var (rest, sent) := Forward(t[1..], from, s, g, now);
      ([t[0]] + rest, sent)
  }

  function TouchOpt(r: Option<Record>, s: Addr, now: int): Option<Record> {
    if r.Some? then Touch(r.value, s, now) else None
  }

  lemma TouchKeepsIfindex(r: Record, s: Addr, now: int)
    ensures Touch(r, s, now).Some? ==> Touch(r, s, now).value.ifindex == r.ifindex
  {
  }

  /** The forwarder leaves every record alone or touches it, and keeps the keys unique. */
  lemma {:induction false} ForwardRecsMeaning(recs: seq<Record>, from: int, s: Addr, now: int, i: int)
    requires KeyedRecs(recs)
    ensures var left := ForwardRecs(recs, from, s, now).0;
            && KeyedRecs(left)
            && (FindRec(left, i) == FindRec(recs, i) || FindRec(left, i) == TouchOpt(FindRec(recs, i), s, now))
  {
    if recs != [] {
      KeyedRecsTail(recs);
      var r, left := recs[0], ForwardRecs(recs, from, s, now).0;
      var rest := ForwardRecs(recs[1..], from, s, now).0;
      ForwardRecsMeaning(recs[1..], from, s, now, i);
      ForwardRecsMeaning(recs[1..], from, s, now, r.ifindex);
      TouchKeepsIfindex(r, s, now);
      FindRecSome(recs[1..], r.ifindex);
      FindRecSome(rest, r.ifindex);
      if left != recs {
        var r' := if r.ifindex == from then Some(r) else Touch(r, s, now);
        var stop := r.ifindex != from && r.mode == Include && s in Addrs(r.includes);
        var tail := if stop then recs[1..] else rest;
        assert left == OptSeq(r') + tail;
        if r'.Some? {
          KeyedRecsCons(r'.value, tail);
          assert left[1..] == tail;
        } else {
          assert left == tail;
        }
      }
    }
  }

  lemma {:induction false} ForwardGroups(t: seq<Group>, from: int, s: Addr, g: Addr, now: int, h: Addr)
    ensures HasGroup(Forward(t, from, s, g, now).0, h) ==> HasGroup(t, h)
  {
    if t != [] {
      ForwardGroups(t[1..], from, s, g, now, h);
      HasGroupCons(t, h);
      var f := Forward(t, from, s, g, now).0;
      if f != [] {
        HasGroupCons(f, h);
      }
      if t[0].mca == g {
        var recs := ForwardRecs(t[0].recs, from, s, now).0;
        assert f == Kept(t[0], recs) + t[1..];
        assert recs == [] ==> f == t[1..];
        assert recs != [] ==> f[1..] == t[1..];
      } else {
        assert f[1..] == Forward(t[1..], from, s, g, now).0;
      }
    }
  }

  /** The group in front is the packet's. */
  lemma ForwardHit(t: seq<Group>, recs: seq<Record>, s: Addr, now: int, h: Addr, i: int)
    requires Keyed(t) && t != [] && KeyedRecs(recs)
    requires FindRec(recs, i) == FindRec(t[0].recs, i) || FindRec(recs, i) == TouchOpt(FindRec(t[0].recs, i), s, now)
    ensures var left := Kept(t[0], recs) + t[1..];
            && Keyed(left)
            && (Lookup(left, h, i) == Lookup(t, h, i)
                || (h == t[0].mca && Lookup(left, h, i) == TouchOpt(Lookup(t, h, i), s, now)))
  {
    KeyedTail(t);
    LookupNone(t[1..], t[0].mca, i);
    hide Keyed, KeyedRecs, HasGroup, TouchOpt;
    if recs == [] {
      assert Kept(t[0], recs) + t[1..] == t[1..];
    } else {
      var left := [t[0].(recs := recs)] + t[1..];
      KeyedCons(t[0].(recs := recs), t[1..]);
      assert left[1..] == t[1..];
    }
  }

  lemma {:induction false} ForwardMeaning(t: seq<Group>, from: int, s: Addr, g: Addr, now: int, h: Addr, i: int)
    requires Keyed(t)
    ensures var left := Forward(t, from, s, g, now).0;
            && Keyed(left)
            && (Lookup(left, h, i) == Lookup(t, h, i)
                || (h == g && Lookup(left, h, i) == TouchOpt(Lookup(t, h, i), s, now)))
  {
    if t != [] {
      KeyedTail(t);
      hide Keyed, KeyedRecs, HasGroup, TouchOpt, ForwardRecs;
      if t[0].mca == g {
        ForwardRecsMeaning(t[0].recs, from, s, now, i);
        ForwardHit(t, ForwardRecs(t[0].recs, from, s, now).0, s, now, h, i);
      } else {
        ForwardMeaning(t[1..], from, s, g, now, h, i);
        ForwardGroups(t[1..], from, s, g, now, t[0].mca);
        var rest := Forward(t[1..], from, s, g, now).0;
        KeyedCons(t[0], rest);
        assert ([t[0]] + rest)[1..] == rest;
      }
    }
  }

  // ---------------------------------------------------------------- runs

  /** What can happen to the table. */
  datatype Happening =
    | Reported(g: Addr, i: int, t: RecType, sources: seq<Source>, now: int, heap: int)
    | SweptAll(now: int)
    | Passed(from: int, s: Addr, g: Addr, now: int)

  function TableStep(t: seq<Group>, e: Happening): seq<Group> {
    match e
    case Reported(g, i, ty, b, now, heap) => Report(t, g, i, ty, b, now, heap)
    case SweptAll(now) => SweepTable(t, now)
    case Passed(from, s, g, now) => Forward(t, from, s, g, now).0
  }

  function TableAfter(run: seq<Happening>): seq<Group> {
    if run == [] then [] else TableStep(TableAfter(Init(run)), Last(run))
  }

  /** The part of a run that concerns one record. */
  function Events(run: seq<Happening>, g: Addr, i: int): seq<Event> {
    if run == [] then [] else Events(Init(run), g, i) + Concerning(TableAfter(Init(run)), Last(run), g, i)
  }

  /** What one step of table `t` is to the record: an event or nothing. */
  function Concerning(t: seq<Group>, e: Happening, g: Addr, i: int): seq<Event> {
    match e
    case Reported(h, j, ty, b, now, heap) => if h == g && j == i then [Heard(ty, b, now, heap)] else []
    case SweptAll(now) => [Swept(now)]
    case Passed(from, s, h, now) =>
      if Lookup(TableStep(t, e), g, i) == Lookup(t, g, i) then [] else [Packet(s, now)]
  }

  lemma ConcerningOne(t: seq<Group>, e: Happening, g: Addr, i: int)
    ensures var one := Concerning(t, e, g, i);
            && |one| <= 1
            && (one != [] ==> one[0].now == e.now)
            && (one != [] && one[0].Heard? ==> e.Reported? && e.g == g && e.i == i && one[0].sources == e.sources)
            && (e.SweptAll? <==> one != [] && one[0].Swept?)
  {
  }

  /** One step of the table is that one event to the record, or leaves it as it is. */
  lemma StepOfRecord(t: seq<Group>, e: Happening, g: Addr, i: int)
    requires Keyed(t)
    ensures Keyed(TableStep(t, e))
    ensures var one, st := Concerning(t, e, g, i), Lookup(t, g, i);
            Lookup(TableStep(t, e), g, i) == if one == [] then st else Step(st, one[0], i)
  {
    match e {
      case Reported(h, j, ty, b, now, heap) =>
        ReportKeyed(t, h, j, ty, b, now, heap);
        ReportMeaning(t, h, j, ty, b, now, heap, g, i);
      case SweptAll(now) => SweepMeaning(t, now, g, i);
      case Passed(from, s, h, now) => ForwardMeaning(t, from, s, h, now, g, i);
    }
  }

  /** In every run keys stay unique, and each record of the table has lived through exactly
      the events that concern it.  So all that modules Lease and Lapse prove of one record
      holds of every record of the table. */
  lemma {:induction false} TableIsRecords(run: seq<Happening>, g: Addr, i: int)
    ensures Keyed(TableAfter(run))
    ensures Lookup(TableAfter(run), g, i) == After(Events(run, g, i), i)
  {
    if run != [] {
      TableIsRecords(Init(run), g, i);
      var t, past := TableAfter(Init(run)), Events(Init(run), g, i);
      StepOfRecord(t, Last(run), g, i);
      ConcerningOne(t, Last(run), g, i);
      var one := Concerning(t, Last(run), g, i);
      if one == [] {
        assert past + one == past;
      } else {
        assert one == [one[0]];
        AfterSnoc(past, one[0], i);
      }
      hide Keyed, Lookup, TableStep, Concerning, Step;
    }
  }

  lemma AfterSnoc(run: seq<Event>, e: Event, i: int)
    ensures After(run + [e], i) == Step(After(run, i), e, i)
  {
    assert Init(run + [e]) == run && Last(run + [e]) == e;
  }

  ghost predicate PlausibleRun(run: seq<Happening>) {
    && (forall i, j :: 0 <= i < j < |run| ==> run[i].now <= run[j].now)
    && (forall i :: 0 <= i < |run| && run[i].Reported? ==> DupFree(run[i].sources))
  }

  lemma {:induction false} EventsPlausible(run: seq<Happening>, g: Addr, i: int)
    requires PlausibleRun(run)
    ensures Plausible(Events(run, g, i))
    ensures run != [] ==> AtOrAfter(Events(run, g, i), Last(run).now)
  {
    if run != [] {
      EventsPlausible(Init(run), g, i);
      ConcerningOne(TableAfter(Init(run)), Last(run), g, i);
      assert Init(run) != [] ==> Last(Init(run)).now <= Last(run).now;
      assert run[|run| - 1] == Last(run);
      PlausibleSnoc(Events(Init(run), g, i), Concerning(TableAfter(Init(run)), Last(run), g, i), Last(run).now);
      hide PlausibleRun, Plausible, Concerning, TableAfter;
    }
  }

  lemma PlausibleSnoc(past: seq<Event>, one: seq<Event>, now: int)
    requires Plausible(past) && AtOrAfter(past, now) && |one| <= 1
    requires one != [] ==> one[0].now == now && (one[0].Heard? ==> DupFree(one[0].sources))
    ensures Plausible(past + one) && AtOrAfter(past + one, now)
  {
    assert one == [] ==> past + one == past;
    if past != [] {
      assert forall k :: 0 <= k < |past| ==> past[k].now <= past[|past| - 1].now;
    }
  }

  /** Lease safety for the whole table: whatever reports for other groups and interfaces,
      sweeps and packets come in between, a record whose own reports pass the guard honours
      every lease. */
  lemma TableLeaseSafety(run: seq<Happening>, g: Addr, i: int, s: Addr, now: int)
    requires PlausibleRun(run) && Guarded(Events(run, g, i), i)
    requires AtOrAfter(Events(run, g, i), now) && Leased(Events(run, g, i), s, now)
    ensures Admits(SweepTable(TableAfter(run), now), g, i, s, now)
  {
    var events := Events(run, g, i);
    EventsPlausible(run, g, i);
    LeaseSafety(events, i);
    assert events[..|events|] == events;
    assert Served(After(events[..|events|], i), s, now);
    ServedInTable(run, g, i, s, now);
  }

  /** The record of `g` and `i` lets source `s` through. */
  predicate Admits(t: seq<Group>, g: Addr, i: int, s: Addr, now: int) {
    Lookup(t, g, i).Some? && Accepts(Lookup(t, g, i).value, s, now)
  }

  lemma ServedInTable(run: seq<Happening>, g: Addr, i: int, s: Addr, now: int)
    ensures Admits(SweepTable(TableAfter(run), now), g, i, s, now) <==> Served(After(Events(run, g, i), i), s, now)
  {
    TableIsRecords(run, g, i);
    SweepMeaning(TableAfter(run), now, g, i);
  }

  /** Each stretch of a record's events is what some stretch of the run was to it. */
  lemma {:induction false} EventsUpTo(run: seq<Happening>, g: Addr, i: int, m: nat) returns (n: nat)
    requires m <= |Events(run, g, i)|
    ensures n <= |run| && Events(run[..n], g, i) == Events(run, g, i)[..m]
  {
    if m == |Events(run, g, i)| {
      n := |run|;
      assert run[..n] == run && Events(run, g, i)[..m] == Events(run, g, i);
    } else {
      ConcerningOne(TableAfter(Init(run)), Last(run), g, i);
      n := EventsUpTo(Init(run), g, i, m);
      assert Init(run)[..n] == run[..n];
      assert Events(Init(run), g, i)[..m] == Events(run, g, i)[..m];
    }
  }

  lemma {:induction false} EventsGrow(run: seq<Happening>, g: Addr, i: int, n: nat)
    requires n <= |run|
    ensures Events(run[..n], g, i) <= Events(run, g, i)
  {
    if n == |run| {
      assert run[..n] == run;
    } else {
      EventsGrow(Init(run), g, i, n);
      assert Init(run)[..n] == run[..n];
    }
  }

  /** Once the table is swept at `now`, the record honours every lease it owes then. */
  ghost predicate Serves(run: seq<Happening>, g: Addr, i: int) {
    forall s: Addr, now {:trigger Leased(Events(run, g, i), s, now)} ::
      AtOrAfter(Events(run, g, i), now) && Leased(Events(run, g, i), s, now)
      ==> Admits(SweepTable(TableAfter(run), now), g, i, s, now)
  }

  lemma GuardedServes(run: seq<Happening>, g: Addr, i: int)
    requires PlausibleRun(run) && Guarded(Events(run, g, i), i)
    ensures Serves(run, g, i)
  {
    forall s: Addr, now | AtOrAfter(Events(run, g, i), now) && Leased(Events(run, g, i), s, now)
      ensures Admits(SweepTable(TableAfter(run), now), g, i, s, now)
    {
      TableLeaseSafety(run, g, i, s, now);
    }
  }

  lemma GuardedUpTo(run: seq<Happening>, g: Addr, i: int, n: nat)
    requires PlausibleRun(run) && Guarded(Events(run, g, i), i) && n <= |run|
    ensures Serves(run[..n], g, i)
  {
    EventsGrow(run, g, i, n);
    var events, part := Events(run, g, i), Events(run[..n], g, i);
    assert events[..|part|] == part && PlausibleRun(run[..n]);
    hide Events, Guarded, PlausibleRun, Serves;
    GuardedPrefix(events, |part|, i);
    GuardedServes(run[..n], g, i);
  }

  /** A run with a report that fails the guard leaves a lease unserved at some point. */
  lemma UnguardedFails(run: seq<Happening>, g: Addr, i: int) returns (n: nat)
    requires PlausibleRun(run) && !Guarded(Events(run, g, i), i)
    ensures n <= |run| && !Serves(run[..n], g, i)
  {
    var events := Events(run, g, i);
    EventsPlausible(run, g, i);
    LeaseExact(events, i);
    hide Guarded, Events, Leased, After, Served;
    var m, s: Addr, now :| 0 <= m <= |events| && AtOrAfter(events[..m], now) && Leased(events[..m], s, now)
                           && !Served(After(events[..m], i), s, now);
    n := EventsUpTo(run, g, i, m);
    ServedInTable(run[..n], g, i, s, now);
  }

  /** At every point of the run, leases of the record are honoured. */
  ghost predicate AlwaysServes(run: seq<Happening>, g: Addr, i: int) {
    forall n :: 0 <= n <= |run| ==> Serves(run[..n], g, i)
  }

  /** And exactly so: at every point of a run of the table the record's leases are honoured
      if and only if all its own reports pass the guard. */
  lemma TableLeaseExact(run: seq<Happening>, g: Addr, i: int)
    requires PlausibleRun(run)
    ensures AlwaysServes(run, g, i) <==> Guarded(Events(run, g, i), i)
  {
    if Guarded(Events(run, g, i), i) {
      forall n | 0 <= n <= |run| ensures Serves(run[..n], g, i) {
        GuardedUpTo(run, g, i, n);
      }
    } else {
      var n := UnguardedFails(run, g, i);
    }
  }

  // ---------------------------------------------------------------- bounded lapse

  /** No report for the record; reports for others, sweeps and packets may come. */
  ghost predicate Unheard(tail: seq<Happening>, g: Addr, i: int) {
    forall k :: 0 <= k < |tail| && tail[k].Reported? ==> tail[k].g != g || tail[k].i != i
  }

  function LateTableSweeps(tail: seq<Happening>, limit: int): nat {
    if tail == [] then 0
    else LateTableSweeps(Init(tail), limit) + if Last(tail).SweptAll? && Last(tail).now >= limit then 1 else 0
  }

  /** What a tail without reports for a record adds to the record's own events. */
  lemma {:induction false} EventsTail(run: seq<Happening>, tail: seq<Happening>, g: Addr, i: int, limit: int)
    returns (quiet: seq<Event>)
    requires Unheard(tail, g, i)
    ensures Events(run + tail, g, i) == Events(run, g, i) + quiet
    ensures Silent(quiet) && LateSweeps(quiet, limit) == LateTableSweeps(tail, limit)
  {
    quiet := [];
    if tail == [] {
      assert run + tail == run && Events(run, g, i) + [] == Events(run, g, i);
    } else {
      var before := EventsTail(run, Init(tail), g, i, limit);
      quiet := EventsSnoc(run, tail, before, g, i, limit);
    }
  }

  lemma EventsSnoc(run: seq<Happening>, tail: seq<Happening>, before: seq<Event>, g: Addr, i: int, limit: int)
    returns (quiet: seq<Event>)
    requires tail != [] && Unheard(tail, g, i)
    requires Events(run + Init(tail), g, i) == Events(run, g, i) + before
    requires Silent(before) && LateSweeps(before, limit) == LateTableSweeps(Init(tail), limit)
    ensures Events(run + tail, g, i) == Events(run, g, i) + quiet
    ensures Silent(quiet) && LateSweeps(quiet, limit) == LateTableSweeps(tail, limit)
  {
    hide TableAfter, Concerning, LateSweeps, Lookup;
    var longer, e := run + tail, Last(tail);
    assert Init(longer) == run + Init(tail) && Last(longer) == e && tail[|tail| - 1] == e;
    var one := Concerning(TableAfter(Init(longer)), e, g, i);
    assert Events(longer, g, i) == Events(Init(longer), g, i) + one;
    ConcerningOne(TableAfter(Init(longer)), e, g, i);
    hide Events;
    quiet := before + one;
    assert Events(run, g, i) + before + one == Events(run, g, i) + quiet;
    QuietSnoc(before, one, limit);
    LateOne(one, limit);
  }

  lemma LateOne(one: seq<Event>, limit: int)
    requires |one| <= 1
    ensures LateSweeps(one, limit) == if one != [] && one[0].Swept? && one[0].now >= limit then 1 else 0
  {
    if one != [] {
      assert Init(one) == [];
    }
  }

  lemma QuietSnoc(before: seq<Event>, one: seq<Event>, limit: int)
    requires Silent(before) && |one| <= 1 && Silent(one)
    ensures Silent(before + one) && LateSweeps(before + one, limit) == LateSweeps(before, limit) + LateSweeps(one, limit)
  {
    if one == [] {
      assert before + one == before;
    } else {
      assert Init(before + one) == before && Last(before + one) == one[0] && Init(one) == [];
    }
  }

  /** The record of `g` and `i` never goes on its own. */
  predicate StuckAt(t: seq<Group>, g: Addr, i: int) {
    Lookup(t, g, i).Some? && Stuck(Lookup(t, g, i).value)
  }

  /** Every report for the record comes at least MALI seconds before `limit`. */
  ghost predicate ReportedBy(run: seq<Happening>, g: Addr, i: int, limit: int) {
    forall k :: 0 <= k < |run| && run[k].Reported? && run[k].g == g && run[k].i == i ==> run[k].now + MALI <= limit
  }

  lemma {:induction false} EventsBefore(run: seq<Happening>, g: Addr, i: int, limit: int)
    requires ReportedBy(run, g, i, limit)
    ensures HeardBy(Events(run, g, i), limit)
  {
    if run != [] {
      EventsBefore(Init(run), g, i, limit);
      ConcerningOne(TableAfter(Init(run)), Last(run), g, i);
      var past, one := Events(Init(run), g, i), Concerning(TableAfter(Init(run)), Last(run), g, i);
      assert run[|run| - 1] == Last(run);
      assert HeardBy(past, limit) && HeardBy(one, limit);
      hide Concerning, TableAfter, Events;
    }
  }

  /** Bounded lapse in the table: when no more reports come for a group and interface, two
      sweeps at or after the last report plus MALI leave no record, whatever else
      happens in the table, if and only if the record was not stuck. */
  lemma TableBoundedLapse(run: seq<Happening>, tail: seq<Happening>, g: Addr, i: int, limit: int)
    requires PlausibleRun(run) && Unheard(tail, g, i) && LateTableSweeps(tail, limit) >= 2
    requires ReportedBy(run, g, i, limit)
    ensures Lookup(TableAfter(run + tail), g, i).None? <==> !StuckAt(TableAfter(run), g, i)
    ensures StuckAt(TableAfter(run), g, i) ==>
              var r := Lookup(TableAfter(run + tail), g, i).value; r.mode == Include && r.includes == []
  {
    var events := Events(run, g, i);
    EventsPlausible(run, g, i);
    EventsBefore(run, g, i, limit);
    HeardBefore(events, i, limit);
    var quiet := EventsTail(run, tail, g, i, limit);
    TableIsRecords(run, g, i);
    TableIsRecords(run + tail, g, i);
    if After(events, i).Some? {
      LapsingTail(events, quiet, i, limit);
    } else {
      SilentStaysGone(events, quiet, i);
    }
  }

  /** In particular, when no BLOCK was among its reports, the record of any listener goes: one in
      EXCLUDE mode, or one that holds a source. */
  lemma TableNoBlockLapse(run: seq<Happening>, tail: seq<Happening>, g: Addr, i: int, limit: int)
    requires PlausibleRun(run) && Unheard(tail, g, i) && LateTableSweeps(tail, limit) >= 2
    requires ReportedBy(run, g, i, limit) && NoBlock(Events(run, g, i))
    requires var r := Lookup(TableAfter(run), g, i); r.Some? ==> r.value.mode == Exclude || r.value.includes != []
    ensures Lookup(TableAfter(run + tail), g, i).None?
  {
    TableBoundedLapse(run, tail, g, i, limit);
    TableIsRecords(run, g, i);
    if Lookup(TableAfter(run), g, i).Some? {
      NoBlockNoNulls(Events(run, g, i), i);
    }
  }

  predicate HasRecord(t: seq<Group>, g: Addr, i: int) {
    Lookup(t, g, i).Some?
  }

  lemma {:induction false} GroupHasRecord(t: seq<Group>, g: Addr)
    requires Keyed(t)
    ensures HasGroup(t, g) <==> exists i :: HasRecord(t, g, i)
  {
    if t != [] {
      KeyedTail(t);
      HasGroupCons(t, g);
      GroupHasRecord(t[1..], g);
      if t[0].mca == g {
        assert HasRecord(t, g, t[0].recs[0].ifindex);
      } else {
        assert forall i :: HasRecord(t, g, i) <==> HasRecord(t[1..], g, i);
      }
    }
  }

  /** And the group goes with its last record: once a group is no longer reported at all, it
      is gone if and only if none of its records was stuck. */
  lemma GroupLapse(run: seq<Happening>, tail: seq<Happening>, g: Addr, limit: int)
    requires PlausibleRun(run) && (forall i :: Unheard(tail, g, i)) && LateTableSweeps(tail, limit) >= 2
    requires forall i :: ReportedBy(run, g, i, limit)
    ensures var before, after := TableAfter(run), TableAfter(run + tail);
            HasGroup(after, g) <==> SomeStuck(before, g)
  {
    TableIsRecords(run + tail, g, 0);
    forall i ensures HasRecord(TableAfter(run + tail), g, i) <==> StuckAt(TableAfter(run), g, i) {
      TableBoundedLapse(run, tail, g, i, limit);
    }
    SameRecords(TableAfter(run), TableAfter(run + tail), g);
  }

  ghost predicate SomeStuck(t: seq<Group>, g: Addr) {
    exists i :: StuckAt(t, g, i)
  }

  lemma SameRecords(before: seq<Group>, after: seq<Group>, g: Addr)
    requires Keyed(after) && forall i :: HasRecord(after, g, i) <==> StuckAt(before, g, i)
    ensures HasGroup(after, g) <==> SomeStuck(before, g)
  {
    GroupHasRecord(after, g);
    hide HasRecord, StuckAt, HasGroup;
    if i :| HasRecord(after, g, i) {
      assert StuckAt(before, g, i);
    }
    if i :| StuckAt(before, g, i) {
      assert HasRecord(after, g, i);
    }
  }
}
