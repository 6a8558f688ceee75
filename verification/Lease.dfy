/** Whole runs of one (group, interface) record: reports, timer sweeps and forwarded packets
    under a clock that never goes back.

    A report leases the sources it asks for during MALI seconds; a leave message cuts the
    lease short, leaving LLQI seconds for other listeners to answer the query.  The main
    theorems say when every lease is honoured, and that silence ends in silence. */
module Lease {
  import opened Sources
  import opened Mld2
  import opened Rfc3810

  /** `heap` is the content of a fresh allocation, used when the report creates the record. */
  datatype Event =
    | Heard(t: RecType, sources: seq<Source>, now: int, heap: int)
    | Swept(now: int)
    | Packet(src: Addr, now: int)

  function Step(st: Option<Record>, e: Event, ifindex: int): Option<Record> {
    match e
    case Heard(t, b, now, heap) =>
      Some(Handle(if st.Some? then st.value else Fresh(ifindex, heap), t, b, now))
    case Swept(now) => if st.Some? then Sweep(st.value, now) else None
    case Packet(s, now) => if st.Some? then Touch(st.value, s, now) else None
  }

  function Init<T>(run: seq<T>): seq<T>
    requires run != []
  {
    run[..|run| - 1]
  }

  function Last<T>(run: seq<T>): T
    requires run != []
  {
    run[|run| - 1]
  }

  /** The record after a run that starts without one. */
  function After(run: seq<Event>, ifindex: int): Option<Record> {
    if run == [] then None else Step(After(Init(run), ifindex), Last(run), ifindex)
  }

  /** The clock never goes back, and reports name a source once (`mrec_add_source`). */
  ghost predicate Plausible(run: seq<Event>) {
    && (forall i, j :: 0 <= i < j < |run| ==> run[i].now <= run[j].now)
    && (forall i :: 0 <= i < |run| && run[i].Heard? ==> DupFree(run[i].sources))
  }

  ghost predicate AtOrAfter(run: seq<Event>, now: int) {
    run != [] ==> Last(run).now <= now
  }

  lemma PlausiblePrefix(run: seq<Event>)
    requires Plausible(run) && run != []
    ensures Plausible(Init(run)) && AtOrAfter(Init(run), Last(run).now)
  {
  }

  // ---------------------------------------------------------------- leases

  predicate Asks(e: Event, s: Addr) {
    e.Heard? && match e.t
    case IsIn | Allow | ToIn => s in Addrs(e.sources)
    case IsEx | ToEx => s !in Addrs(e.sources)
    case Block => false
  }

  predicate Leaves(e: Event, s: Addr) {
    e.Heard? && match e.t
    case ToIn => s !in Addrs(e.sources)
    case ToEx | Block => s in Addrs(e.sources)
    case _ => false
  }

  /** Some listener is owed source `s` at time `now`. */
  predicate Leased(run: seq<Event>, s: Addr, now: int) {
    run != [] &&
    var e := Last(run);
    if Asks(e, s) then now < e.now + MALI
    else if Leaves(e, s) then Leased(Init(run), s, now) && now < e.now + LLQI
    else Leased(Init(run), s, now)
  }

  lemma {:induction false} LeaseBound(run: seq<Event>, s: Addr, now: int, clock: int)
    requires Plausible(run) && AtOrAfter(run, clock) && Leased(run, s, now)
    ensures now < clock + MALI
  {
    if !Asks(Last(run), s) {
      PlausiblePrefix(run);
      LeaseBound(Init(run), s, now, Last(run).now);
    }
  }

  lemma {:induction false} LeasedEarlier(run: seq<Event>, s: Addr, now: int, earlier: int)
    requires Leased(run, s, now) && earlier <= now
    ensures Leased(run, s, earlier)
  {
    if !Asks(Last(run), s) {
      LeasedEarlier(Init(run), s, now, earlier);
    }
  }

  /** After a sweep at `now`, source `s` is let through. */
  predicate Served(st: Option<Record>, s: Addr, now: int) {
    st.Some? && var swept := Sweep(st.value, now);
    swept.Some? && Accepts(swept.value, s, now)
  }

  /** At every point of the run, a sweep then or later serves every lease that still holds. */
  ghost predicate Honoured(run: seq<Event>, ifindex: int) {
    forall n, s: Addr, now {:trigger Leased(run[..n], s, now)} ::
      0 <= n <= |run| && AtOrAfter(run[..n], now) && Leased(run[..n], s, now)
      ==> Served(After(run[..n], ifindex), s, now)
  }

  // ---------------------------------------------------------------- the guard

  /** The test that decides whether the code, with D1, keeps all leases across a report, on
      the reports received so far and the record they left: in EXCLUDE mode, an asked-for
      source must not sit in the exclude list; and an excluded source that is still leased
      must not be excluded anew. */
  ghost predicate Guard(run: seq<Event>, st: Option<Record>, e: Event) {
    e.Heard? && st.Some? && st.value.mode == Exclude ==>
      var r := st.value;
      match e.t
      case IsIn | Allow => r.filterTimer > e.now ==> Addrs(e.sources) !! Addrs(r.excludes)
      case ToIn => Addrs(e.sources) !! Addrs(r.excludes)
      case IsEx | ToEx =>
        forall s: Addr :: s in Addrs(r.excludes) && s in Addrs(e.sources) ==> !Leased(run, s, e.now)
      case Block => true
  }

  ghost predicate Guarded(run: seq<Event>, ifindex: int) {
    run != [] ==> Guarded(Init(run), ifindex) && Guard(Init(run), After(Init(run), ifindex), Last(run))
  }

  // ---------------------------------------------------------------- the invariant

  predicate Running(s: State, a: Addr, now: int) {
    a in s.x && s.x[a] > now
  }

  /** How a record provides for `a` until after `now`. */
  predicate Covered(s: State, a: Addr, now: int, clock: int) {
    if s.mode == Include then Running(s, a, now)
    else
      || (s.filterTimer > now && a !in s.y)
      || (Running(s, a, now) && (a !in s.y || s.filterTimer <= clock))
  }

  ghost predicate Inv(run: seq<Event>, st: Option<Record>, clock: int) {
    && (st.Some? ==> Shaped(st.value))
    && (forall a: Addr, now :: now >= clock && Leased(run, a, now) ==>
          st.Some? && Covered(Abs(st.value), a, now, clock))
  }

  /** Handling keeps both lists duplicate-free. */
  lemma HandleShaped(r: Record, t: RecType, b: seq<Source>, now: int)
    requires Shaped(r) && DupFree(b)
    ensures Shaped(Handle(r, t, b, now))
    ensures Handle(r, t, b, now).mode == if t in {IsEx, ToEx} then Exclude else r.mode
  {
    UnionMeaning(r.includes, b);
    var u := Union(r.includes, b);
    SetTimersMeaning(u, Addrs(b), now + MALI);
    SetTimersMeaning(u, Addrs(u), now + MALI);
    SelectDupFree(r.excludes, Addrs(b), true);
    match (r.mode, t) {
      case (Include, ToIn) =>
        SetTimersMeaning(SetTimers(u, Addrs(b), now + MALI), Addrs(Difference(r.includes, b)), now + LLQI);
      case (Exclude, ToIn) =>
        SetTimersMeaning(SetTimers(u, Addrs(u), now + MALI), Addrs(Difference(r.includes, b)), now + LLQI);
      case (Include, Block) =>
        SetTimersMeaning(r.includes, Addrs(Intersect(r.includes, b)), now + LLQI);
      case (Exclude, Block) =>
        BlockOnExclude(r, b, now);
        SetTimersMeaning(r.includes, Addrs(Difference(b, r.excludes)), now + LLQI);
      case (_, IsIn) =>
      case (_, Allow) =>
      case _ =>
        SelectDupFree(r.includes, Addrs(b), true);
        SelectDupFree(b, Addrs(r.includes), false);
        var x := Intersect(r.includes, b);
        SetTimersMeaning(x, Addrs(x), now + LLQI);
        SetTimersMeaning(x, Addrs(Difference(b, r.excludes)), now + LLQI);
        if r.mode == Include { ExcludeOnInclude(r, t, b, now); } else { ExcludeOnExclude(r, t, b, now); }
    }
  }

  lemma HeardKeepsInv(run: seq<Event>, st: Option<Record>, e: Event, ifindex: int, clock: int)
    requires e.Heard? && Plausible(run + [e]) && AtOrAfter(run, clock) && clock <= e.now
    requires Inv(run, st, clock) && Guard(run, st, e)
    ensures Inv(run + [e], Step(st, e, ifindex), e.now)
  {
    var r := if st.Some? then st.value else Fresh(ifindex, e.heap);
    assert (run + [e])[|run|] == e;
    HandleShaped(r, e.t, e.sources, e.now);
    forall a: Addr, now | now >= e.now && Leased(run + [e], a, now)
      ensures Covered(Abs(Handle(r, e.t, e.sources, e.now)), a, now, e.now)
    {
      HeardCovers(run, st, e, ifindex, clock, a, now);
    }
  }

  lemma HeardCovers(run: seq<Event>, st: Option<Record>, e: Event, ifindex: int, clock: int, a: Addr, now: int)
    requires e.Heard? && Plausible(run + [e]) && AtOrAfter(run, clock) && clock <= e.now
    requires Inv(run, st, clock) && Guard(run, st, e)
    requires now >= e.now && Leased(run + [e], a, now)
    ensures Covered(Abs(Step(st, e, ifindex).value), a, now, e.now)
  {
    var r := if st.Some? then st.value else Fresh(ifindex, e.heap);
    assert Init(run + [e]) == run && Last(run + [e]) == e;
    LeaseBound(run + [e], a, now, e.now);
    HandleIsCodeRow(r, e.t, e.sources, e.now);
    assert Asks(e, a) || (Covered(Abs(r), a, now, clock) && (Leaves(e, a) ==> now < e.now + LLQI));
    if !Asks(e, a) {
      LeasedEarlier(run, a, now, e.now);
    }
    CodeRowCovers(Abs(r), e, a, now, clock);
  }

  /** One row at a time: what was covered stays covered, what is asked for becomes so. */
  lemma CodeRowCovers(s: State, e: Event, a: Addr, now: int, clock: int)
    requires e.Heard? && clock <= e.now <= now < e.now + MALI
    requires Asks(e, a) || (Covered(s, a, now, clock) && (Leaves(e, a) ==> now < e.now + LLQI))
    requires s.mode == Exclude ==>
               match e.t
               case IsIn | Allow => s.filterTimer > e.now ==> Addrs(e.sources) !! s.y
               case ToIn => Addrs(e.sources) !! s.y
               case IsEx | ToEx => a !in s.y || a !in Addrs(e.sources)
               case Block => true
    ensures Covered(CodeRow(s, e.t, Addrs(e.sources), e.now), a, now, e.now)
  {
  }

  lemma UnexpiredTimers(l: seq<Source>, now: int)
    requires DupFree(l)
    ensures DupFree(Unexpired(l, now))
    ensures Timers(Unexpired(l, now)) == map a | a in Timers(l) && Timers(l)[a] > now :: Timers(l)[a]
  {
    var kept := Unexpired(l, now);
    UnexpiredMembers(l, now);
    TimersKeys(l);
    TimersKeys(kept);
    forall a | a in Timers(l)
      ensures a in Timers(kept) <==> Timers(l)[a] > now
      ensures a in Timers(kept) ==> Timers(kept)[a] == Timers(l)[a]
    {
      var x :| x in l && x.addr == a;
      TimersAt(l, x);
      if a in Timers(kept) {
        var y :| y in kept && y.addr == a;
        EntryUnique(l, x, y);
        TimersAt(kept, y);
      }
    }
    forall a | a in Timers(kept) ensures a in Timers(l) {
      var y :| y in kept && y.addr == a;
      assert y in l;
    }
  }

  lemma SweepOnState(r: Record, now: int)
    requires Shaped(r)
    ensures var s, swept := Abs(r), Sweep(r, now);
            && (swept.Some? ==> Shaped(swept.value))
            && (s.mode == Exclude && s.filterTimer > now ==> swept == Some(r))
            && (s.mode == Exclude && s.filterTimer <= now ==>
                  if swept.Some? then Abs(swept.value) == State(Include, s.x, {}, 0) else s.x == map[])
            && (s.mode == Include ==>
                  if swept.Some? then Abs(swept.value) == s.(x := map a | a in s.x && s.x[a] > now :: s.x[a])
                  else forall a :: a in s.x ==> s.x[a] <= now)
  {
    if r.mode == Include {
      var kept := Timers(Unexpired(r.includes, now));
      UnexpiredTimers(r.includes, now);
      forall a | a in Timers(r.includes) && Timers(r.includes)[a] > now ensures a in kept {
      }
    }
  }

  /** A packet removes at most one source, and only an expired one. */
  lemma TouchOnState(r: Record, p: Addr, now: int)
    requires Shaped(r)
    ensures var s, touched := Abs(r), Touch(r, p, now);
            && (touched.Some? ==> Shaped(touched.value))
            && (s.mode == Exclude && s.filterTimer > now ==> touched == Some(r))
            && (s.mode == Exclude && s.filterTimer <= now ==>
                  if touched.Some? then Abs(touched.value) == State(Include, s.x, {}, 0) else s.x == map[])
            && (s.mode == Include ==>
                  if touched.Some? then
                    Abs(touched.value) == s.(x := if p in s.x && s.x[p] <= now then s.x - {p} else s.x)
                  else s.x.Keys == {p} && s.x[p] <= now)
  {
    TimersKeys(r.includes);
    if r.mode == Include && p in Addrs(r.includes) {
      TimersAt(r.includes, Find(r.includes, p));
      RemoveFirstIsSelect(r.includes, p);
      SelectDupFree(r.includes, {p}, false);
      TimersSelect(r.includes, {p}, false);
      var left := RemoveFirst(r.includes, p);
      TimersKeys(left);
      assert Timers(left) == Timers(r.includes) - {p};
      if left == [] {
        assert Addrs(left) == {};
        assert Addrs(r.includes) <= {p};
      }
    }
  }

  lemma ExpiryKeepsInv(run: seq<Event>, st: Option<Record>, e: Event, ifindex: int, clock: int)
    requires !e.Heard? && clock <= e.now && Inv(run, st, clock)
    ensures Inv(run + [e], Step(st, e, ifindex), e.now)
  {
    assert Init(run + [e]) == run && Last(run + [e]) == e;
    assert forall a: Addr, now :: Leased(run + [e], a, now) ==> Leased(run, a, now);
    if st.Some? {
      if e.Swept? { SweepOnState(st.value, e.now); } else { TouchOnState(st.value, e.src, e.now); }
      forall a: Addr, now | now >= e.now && Leased(run + [e], a, now)
        ensures Step(st, e, ifindex).Some? && Covered(Abs(Step(st, e, ifindex).value), a, now, e.now)
      {
        assert Leased(run, a, now);
        assert Covered(Abs(st.value), a, now, clock);
      }
    }
  }

  lemma {:induction false} GuardedInv(run: seq<Event>, ifindex: int)
    requires Plausible(run) && Guarded(run, ifindex)
    ensures forall clock :: AtOrAfter(run, clock) && (run != [] ==> clock == Last(run).now) ==>
              Inv(run, After(run, ifindex), clock)
  {
    if run != [] {
      var init, e := Init(run), Last(run);
      PlausiblePrefix(run);
      GuardedInv(init, ifindex);
      var clock := if init == [] then e.now else Last(init).now;
      assert Inv(init, After(init, ifindex), clock);
      assert init + [e] == run;
      if e.Heard? {
        HeardKeepsInv(init, After(init, ifindex), e, ifindex, clock);
      } else {
        ExpiryKeepsInv(init, After(init, ifindex), e, ifindex, clock);
      }
    }
  }

  /** A covered source passes the next sweep. */
  lemma CoveredIsServed(r: Record, a: Addr, now: int, clock: int)
    requires Shaped(r) && clock <= now && Covered(Abs(r), a, now, clock)
    ensures Served(Some(r), a, now)
  {
    SweepOnState(r, now);
    TimersKeys(r.includes);
    if Sweep(r, now).Some? {
      TimersKeys(Sweep(r, now).value.includes);
    }
  }

  // ---------------------------------------------------------------- lease safety

  /** Lease safety: in every run, of all six record types, whose reports pass the guard,
      every lease is honoured, across every mode switch. */
  lemma LeaseSafety(run: seq<Event>, ifindex: int)
    requires Plausible(run) && Guarded(run, ifindex)
    ensures Honoured(run, ifindex)
  {
    forall n, s: Addr, now | 0 <= n <= |run| && AtOrAfter(run[..n], now) && Leased(run[..n], s, now)
      ensures Served(After(run[..n], ifindex), s, now)
    {
      var part := run[..n];
      GuardedPrefix(run, n, ifindex);
      GuardedInv(part, ifindex);
      var clock := Last(part).now;
      assert Inv(part, After(part, ifindex), clock);
      CoveredIsServed(After(part, ifindex).value, s, now, clock);
    }
  }

  lemma {:induction false} GuardedPrefix(run: seq<Event>, n: nat, ifindex: int)
    requires n <= |run| && Guarded(run, ifindex)
    ensures Guarded(run[..n], ifindex)
    decreases |run|
  {
    if n < |run| {
      GuardedPrefix(Init(run), n, ifindex);
      assert Init(run)[..n] == run[..n];
    } else {
      assert run[..n] == run;
    }
  }

  // ---------------------------------------------------------------- the guard is necessary

  /** A report that fails the guard leaves a lease unserved on the spot. */
  lemma UnguardedBreaks(run: seq<Event>, e: Event, ifindex: int) returns (s: Addr)
    requires Plausible(run + [e]) && Guarded(run, ifindex)
    requires !Guard(run, After(run, ifindex), e)
    ensures Leased(run + [e], s, e.now) && !Served(After(run + [e], ifindex), s, e.now)
  {
    assert Init(run + [e]) == run && Last(run + [e]) == e;
    PlausiblePrefix(run + [e]);
    GuardedInv(run, ifindex);
    assert run != [];
    assert Inv(run, After(run, ifindex), Last(run).now);
    var r := After(run, ifindex).value;
    if e.t in {IsEx, ToEx} {
      s :| s in Addrs(r.excludes) && s in Addrs(e.sources) && Leased(run, s, e.now);
    } else {
      s :| s in Addrs(e.sources) && s in Addrs(r.excludes);
    }
    HandleIsCodeRow(r, e.t, e.sources, e.now);
  }

  /** Exactness: for all six record types, sweeps and packets, the leases of a run are
      honoured at every point if and only if every report passes the guard. */
  lemma LeaseExact(run: seq<Event>, ifindex: int)
    requires Plausible(run)
    ensures Honoured(run, ifindex) <==> Guarded(run, ifindex)
  {
    hide Guard, After, Leased, Served, Plausible;
    if Guarded(run, ifindex) {
      LeaseSafety(run, ifindex);
    } else {
      var n, s, now := UnservedAt(run, ifindex);
    }
  }

  lemma UnservedAt(run: seq<Event>, ifindex: int) returns (n: nat, s: Addr, now: int)
    requires Plausible(run) && !Guarded(run, ifindex)
    ensures n <= |run| && AtOrAfter(run[..n], now)
    ensures Leased(run[..n], s, now) && !Served(After(run[..n], ifindex), s, now)
  {
    hide Guarded, Guard, After, Leased, Served;
    n := FirstUnguarded(run, ifindex);
    var part, e := run[..n], run[n];
    assert run[..n + 1] == part + [e] && Plausible(part + [e]);
    s := UnguardedBreaks(part, e, ifindex);
    n, now := n + 1, e.now;
  }

  lemma {:induction false} FirstUnguarded(run: seq<Event>, ifindex: int) returns (n: nat)
    requires !Guarded(run, ifindex)
    ensures n < |run| && Guarded(run[..n], ifindex) && !Guard(run[..n], After(run[..n], ifindex), run[n])
  {
    if Guarded(Init(run), ifindex) {
      n := |run| - 1;
    } else {
      n := FirstUnguarded(Init(run), ifindex);
      assert Init(run)[..n] == run[..n];
    }
  }

  // ---------------------------------------------------------------- the guard on the record alone

  predicate NoBlock(run: seq<Event>) {
    forall i :: 0 <= i < |run| && run[i].Heard? ==> run[i].t != Block
  }

  /** The guard as a test of the record alone: what is still leased is what still runs. */
  ghost predicate RecordGuard(st: Option<Record>, e: Event) {
    e.Heard? && st.Some? && st.value.mode == Exclude ==>
      var r := st.value;
      match e.t
      case IsIn | Allow => r.filterTimer > e.now ==> Addrs(e.sources) !! Addrs(r.excludes)
      case ToIn => Addrs(e.sources) !! Addrs(r.excludes)
      case IsEx | ToEx =>
        forall s: Addr :: s in Addrs(r.excludes) && s in Addrs(e.sources) ==> !Running(Abs(r), s, e.now)
      case Block => true
  }

  ghost predicate RecordGuarded(run: seq<Event>, ifindex: int) {
    run != [] ==> RecordGuarded(Init(run), ifindex) && RecordGuard(After(Init(run), ifindex), Last(run))
  }

  /** A source that is requested and excluded at once, with its timer running, is leased. */
  ghost predicate Tight(run: seq<Event>, st: Option<Record>, clock: int) {
    st.Some? && st.value.mode == Exclude ==>
      forall a: Addr, now :: now >= clock && a in Abs(st.value).y && Running(Abs(st.value), a, now) ==> Leased(run, a, now)
  }

  lemma {:induction false} GuardedTight(run: seq<Event>, ifindex: int)
    requires Plausible(run) && Guarded(run, ifindex) && NoBlock(run)
    ensures run != [] ==> Tight(run, After(run, ifindex), Last(run).now)
  {
    if run != [] {
      var init, e := Init(run), Last(run);
      PlausiblePrefix(run);
      GuardedTight(init, ifindex);
      GuardedInv(init, ifindex);
      var st, clock := After(init, ifindex), if init == [] then e.now else Last(init).now;
      assert Inv(init, st, clock);
      var st' := After(run, ifindex);
      assert st' == Step(st, e, ifindex);
      if e.Heard? {
        var r := if st.Some? then st.value else Fresh(ifindex, e.heap);
        HandleIsCodeRow(r, e.t, e.sources, e.now);
        assert run[|run| - 1].t != Block;
        forall a: Addr, now | now >= e.now && st'.value.mode == Exclude && a in Abs(st'.value).y && Running(Abs(st'.value), a, now)
          ensures Leased(run, a, now)
        {
        }
      } else if st.Some? {
        if e.Swept? { SweepOnState(st.value, e.now); } else { TouchOnState(st.value, e.src, e.now); }
      }
    }
  }

  /** Without BLOCK records the two guards agree, so leases are honoured if and only if every
      report passes a test that needs no history. */
  lemma {:induction false} RecordGuardExact(run: seq<Event>, ifindex: int)
    requires Plausible(run) && NoBlock(run)
    ensures RecordGuarded(run, ifindex) <==> Guarded(run, ifindex)
    ensures RecordGuarded(run, ifindex) <==> Honoured(run, ifindex)
  {
    LeaseExact(run, ifindex);
    if run != [] {
      PlausiblePrefix(run);
      RecordGuardExact(Init(run), ifindex);
      if Guarded(Init(run), ifindex) && Init(run) != [] {
        var init, e := Init(run), Last(run);
        GuardedInv(init, ifindex);
        GuardedTight(init, ifindex);
        assert Inv(init, After(init, ifindex), Last(init).now);
      }
    }
  }

  /** The shortest broken lease: everything but `s` is asked for, then `s` too. */
  lemma LeaseCanBreak(s: Addr, now: int, ifindex: int, heap: int)
    ensures var run := [Heard(IsEx, [Source(s, 0)], now, heap), Heard(Allow, [Source(s, 0)], now, heap)];
            Plausible(run) && Leased(run, s, now) && !Served(After(run, ifindex), s, now)
  {
    var one := [Source(s, 0)];
    assert one[0] in one;
    var e, f := Heard(IsEx, one, now, heap), Heard(Allow, one, now, heap);
    var run := [e, f];
    assert Init(run) == [e] && Init([e]) == [];
    var r0 := Fresh(ifindex, heap);
    assert After([e], ifindex) == Some(Handle(r0, IsEx, one, now));
    HandleIsCodeRow(r0, IsEx, one, now);
    HandleShaped(r0, IsEx, one, now);
    var r1 := Handle(r0, IsEx, one, now);
    HandleIsCodeRow(r1, Allow, one, now);
    assert s in Addrs(one);
    assert Leased(run, s, now);
  }

  /** The two intervals in seconds: one report serves a source for 260 seconds, and a leave
      message leaves it 2. */
  lemma LeaseLength(s: Addr, now: int, later: int, ifindex: int, heap: int)
    requires now <= later
    ensures var run := [Heard(IsIn, [Source(s, 0)], now, heap)];
            Served(After(run, ifindex), s, later) <==> later < now + 260
    ensures var run := [Heard(IsIn, [Source(s, 0)], now, heap), Heard(Block, [Source(s, 0)], now, heap)];
            Served(After(run, ifindex), s, later) <==> later < now + 2
  {
    var one := [Source(s, 0)];
    assert Addrs(one) == {s} by { assert one[0] in one; }
    var e, f := Heard(IsIn, one, now, heap), Heard(Block, one, now, heap);
    assert Init([e]) == [] && Init([e, f]) == [e];
    var r0 := Fresh(ifindex, heap);
    HandleShaped(r0, IsIn, one, now);
    HandleIsCodeRow(r0, IsIn, one, now);
    var r1 := Handle(r0, IsIn, one, now);
    HandleShaped(r1, Block, one, now);
    HandleIsCodeRow(r1, Block, one, now);
    var r2 := Handle(r1, Block, one, now);
    assert After([e], ifindex) == Some(r1) && After([e, f], ifindex) == Some(r2);
    hide Handle, After;
    assert Abs(r1) == State(Include, map[s := now + 260], {}, 0);
    assert Abs(r2) == State(Include, map[s := now + 2], {}, 0);
    ServedWhile(r1, s, now + 260, later);
    ServedWhile(r2, s, now + 2, later);
  }

  lemma ServedWhile(r: Record, s: Addr, until: int, now: int)
    requires Shaped(r) && Abs(r) == State(Include, map[s := until], {}, 0)
    ensures Served(Some(r), s, now) <==> now < until
  {
    SweepOnState(r, now);
    assert Abs(r).x[s] == until;
    var swept := Sweep(r, now);
    if swept.Some? {
      TimersKeys(swept.value.includes);
    }
  }

  // ---------------------------------------------------------------- X and Y

  predicate Disjoint(r: Record) {
    r.mode == Exclude ==> Addrs(r.includes) !! Addrs(r.excludes)
  }

  /** Requested and excluded sources stay apart exactly when no report asks, in EXCLUDE
      mode, for an excluded source. */
  lemma DisjointExact(r: Record, t: RecType, b: seq<Source>, now: int)
    requires Shaped(r) && DupFree(b) && Disjoint(r)
    ensures Disjoint(Handle(r, t, b, now)) <==>
            !(r.mode == Exclude && t in {IsIn, Allow, ToIn} && !(Addrs(b) !! Addrs(r.excludes)))
  {
    HandleShaped(r, t, b, now);
    HandleIsCodeRow(r, t, b, now);
    var r' := Handle(r, t, b, now);
    TimersKeys(r.includes);
    TimersKeys(r'.includes);
    if r'.mode == Exclude {
      assert Addrs(r'.includes) == CodeRow(Abs(r), t, Addrs(b), now).x.Keys;
      assert Addrs(r'.excludes) == CodeRow(Abs(r), t, Addrs(b), now).y;
      if r.mode == Exclude && t in {IsIn, Allow, ToIn} && !(Addrs(b) !! Addrs(r.excludes)) {
        var a :| a in Addrs(b) && a in Addrs(r.excludes);
        assert a in Addrs(r'.includes) && a in Addrs(r'.excludes);
      }
    }
  }

  ghost predicate Clash(st: Option<Record>, e: Event) {
    && e.Heard? && st.Some? && st.value.mode == Exclude && e.t in {IsIn, Allow, ToIn}
    && !(Addrs(e.sources) !! Addrs(st.value.excludes))
  }

  ghost predicate ClashFree(run: seq<Event>, ifindex: int) {
    run != [] ==> ClashFree(Init(run), ifindex) && !Clash(After(Init(run), ifindex), Last(run))
  }

  ghost predicate DisjointAt(run: seq<Event>, ifindex: int) {
    var st := After(run, ifindex);
    st.Some? ==> Shaped(st.value) && Disjoint(st.value)
  }

  lemma StepDisjoint(st: Option<Record>, e: Event, ifindex: int)
    requires st.Some? ==> Shaped(st.value) && Disjoint(st.value)
    requires e.Heard? ==> DupFree(e.sources)
    ensures var st' := Step(st, e, ifindex);
            && (st'.Some? ==> Shaped(st'.value))
            && ((st'.Some? ==> Disjoint(st'.value)) <==> !Clash(st, e))
  {
    match e {
      case Heard(t, b, now, heap) =>
        var r := if st.Some? then st.value else Fresh(ifindex, heap);
        HandleShaped(r, t, b, now);
        DisjointExact(r, t, b, now);
      case Swept(now) => if st.Some? { SweepOnState(st.value, now); }
      case Packet(s, now) => if st.Some? { TouchOnState(st.value, s, now); }
    }
  }

  /** Reachable states: the lists of a record are duplicate-free, and X and Y are disjoint at
      every point of a run if and only if no report in it clashes. */
  lemma {:induction false} ReachableDisjoint(run: seq<Event>, ifindex: int)
    requires Plausible(run)
    ensures (forall n :: 0 <= n <= |run| ==> DisjointAt(run[..n], ifindex)) <==> ClashFree(run, ifindex)
  {
    if run != [] {
      var m := |run| - 1;
      PlausiblePrefix(run);
      ReachableDisjoint(Init(run), ifindex);
      assert forall n :: 0 <= n <= m ==> Init(run)[..n] == run[..n];
      assert run[..|run|] == run && Init(run)[..m] == Init(run);
      if DisjointAt(Init(run), ifindex) {
        StepDisjoint(After(Init(run), ifindex), Last(run), ifindex);
      }
    }
  }
}
