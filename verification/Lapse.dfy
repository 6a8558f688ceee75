/** Silence and hidden state of one (group, interface) record. */
module Lapse {
  import opened Sources
  import opened Mld2
  import opened Rfc3810
  import opened Lease

  // ---------------------------------------------------------------- bounded lapse

  /** No timer that matters runs beyond `limit`. */
  ghost predicate Bounded(r: Record, limit: int) {
    && (forall x :: x in r.includes ==> x.timer <= limit)
    && (r.mode == Exclude ==> r.filterTimer <= limit)
  }

  /** The time of the last report of a run. */
  function LastHeard(run: seq<Event>): int {
    if run == [] then 0
    else if Last(run).Heard? then Last(run).now
    else LastHeard(Init(run))
  }

  lemma HandleBounded(r: Record, t: RecType, b: seq<Source>, now: int)
    requires Shaped(r) && DupFree(b) && Bounded(r, now + MALI)
    ensures Bounded(Handle(r, t, b, now), now + MALI)
  {
    var r' := Handle(r, t, b, now);
    HandleShaped(r, t, b, now);
    HandleIsCodeRow(r, t, b, now);
    TimersKeys(r.includes);
    forall a | a in Timers(r.includes) ensures Timers(r.includes)[a] <= now + MALI {
      var x :| x in r.includes && x.addr == a;
      TimersAt(r.includes, x);
    }
    forall x | x in r'.includes ensures x.timer <= now + MALI {
      TimersAt(r'.includes, x);
      assert x.timer == Abs(r').x[x.addr];
    }
  }

  /** Without a report, no step creates a record, and none lets a timer run longer. */
  lemma QuietBounded(st: Option<Record>, e: Event, ifindex: int, limit: int)
    requires !e.Heard? && (st.Some? ==> Shaped(st.value) && Bounded(st.value, limit))
    ensures var st' := Step(st, e, ifindex);
            st'.Some? ==> st.Some? && Shaped(st'.value) && Bounded(st'.value, limit)
  {
    if st.Some? {
      if e.Swept? {
        SweepOnState(st.value, e.now);
        UnexpiredMembers(st.value.includes, e.now);
      } else {
        TouchOnState(st.value, e.src, e.now);
        RemoveFirstIsSelect(st.value.includes, e.src);
        SelectMembers(st.value.includes, {e.src}, false);
      }
    }
  }

  lemma {:induction false} RunBounded(run: seq<Event>, ifindex: int)
    requires Plausible(run)
    ensures After(run, ifindex).Some? ==>
              Shaped(After(run, ifindex).value) && Bounded(After(run, ifindex).value, LastHeard(run) + MALI)
    ensures After(run, ifindex).Some? ==> run != [] && LastHeard(run) <= Last(run).now
  {
    if run != [] {
      PlausiblePrefix(run);
      RunBounded(Init(run), ifindex);
      var st, e := After(Init(run), ifindex), Last(run);
      if e.Heard? {
        var r := if st.Some? then st.value else Fresh(ifindex, e.heap);
        HandleShaped(r, e.t, e.sources, e.now);
        HandleBounded(r, e.t, e.sources, e.now);
      } else {
        QuietBounded(st, e, ifindex, LastHeard(run) + MALI);
      }
    }
  }

  lemma {:induction false} AllExpired(l: seq<Source>, now: int)
    requires forall x :: x in l ==> x.timer <= now
    ensures Unexpired(l, now) == []
  {
    if l != [] {
      assert l[0] in l && forall x :: x in l[1..] ==> x in l;
      AllExpired(l[1..], now);
    }
  }

  /** No report, only sweeps and packets. */
  ghost predicate Silent(tail: seq<Event>) {
    forall k :: 0 <= k < |tail| ==> !tail[k].Heard?
  }

  /** How many sweeps of `tail` come at or after `limit`. */
  function LateSweeps(tail: seq<Event>, limit: int): nat {
    if tail == [] then 0
    else LateSweeps(Init(tail), limit) + if Last(tail).Swept? && Last(tail).now >= limit then 1 else 0
  }

  /** The two kinds of record that never go: one that holds a NULL node (D4), and an INCLUDE
      record that was empty to begin with (D8). */
  predicate Stuck(r: Record) {
    r.nulls > 0 || (r.mode == Include && r.includes == [])
  }

  /** What `sweeps` late sweeps have made of a record: after one it is in INCLUDE mode, after
      two it lets nothing through, and whether it is stuck never changes. */
  ghost predicate Lapsing(r: Record, st: Option<Record>, sweeps: nat, limit: int) {
    && (Stuck(r) ==> st.Some?)
    && (st.Some? ==>
          var q := st.value;
          && Shaped(q) && Bounded(q, limit) && (Stuck(r) <==> Stuck(q))
          && (sweeps >= 1 ==> q.mode == Include)
          && (sweeps >= 2 ==> q.includes == []))
  }

  lemma LapsingStep(r: Record, st: Option<Record>, e: Event, ifindex: int, sweeps: nat, limit: int)
    requires Lapsing(r, st, sweeps, limit) && !e.Heard?
    ensures Lapsing(r, Step(st, e, ifindex), sweeps + if e.Swept? && e.now >= limit then 1 else 0, limit)
  {
    QuietBounded(st, e, ifindex, limit);
    if st.Some? {
      var q := st.value;
      if e.Swept? && e.now >= limit {
        AllExpired(q.includes, e.now);
      }
      if q.mode == Include && q.includes == [] {
        assert Addrs(q.includes) == {};
      }
    }
  }

  lemma {:induction false} LapsingTail(run: seq<Event>, tail: seq<Event>, ifindex: int, limit: int)
    requires Plausible(run) && After(run, ifindex).Some? && LastHeard(run) + MALI <= limit && Silent(tail)
    ensures Lapsing(After(run, ifindex).value, After(run + tail, ifindex), LateSweeps(tail, limit), limit)
  {
    if tail == [] {
      assert run + tail == run;
      RunBounded(run, ifindex);
    } else {
      LapsingTail(run, Init(tail), ifindex, limit);
      assert Init(run + tail) == run + Init(tail);
      LapsingStep(After(run, ifindex).value, After(run + Init(tail), ifindex), Last(tail), ifindex, LateSweeps(Init(tail), limit), limit);
    }
  }

  /** Liveness: when no more reports come, the second sweep at or after the last report plus
      MALI at the latest takes the record away, whatever packets and earlier sweeps come in
      between, if and only if the record was not stuck.  Even a stuck one lets nothing
      through by then. */
  lemma BoundedLapse(run: seq<Event>, tail: seq<Event>, ifindex: int)
    requires Plausible(run) && After(run, ifindex).Some? && Silent(tail)
    requires LateSweeps(tail, LastHeard(run) + MALI) >= 2
    ensures var st := After(run + tail, ifindex);
            && (st.None? <==> !Stuck(After(run, ifindex).value))
            && (st.Some? ==> st.value.mode == Include && st.value.includes == [])
  {
    LapsingTail(run, tail, ifindex, LastHeard(run) + MALI);
  }

  /** No report comes less than MALI seconds before `limit`. */
  ghost predicate HeardBy(run: seq<Event>, limit: int) {
    forall k :: 0 <= k < |run| && run[k].Heard? ==> run[k].now + MALI <= limit
  }

  lemma {:induction false} HeardBefore(run: seq<Event>, ifindex: int, limit: int)
    requires HeardBy(run, limit)
    ensures After(run, ifindex).Some? ==> LastHeard(run) + MALI <= limit
  {
    if run != [] {
      HeardBefore(Init(run), ifindex, limit);
    }
  }

  lemma {:induction false} SilentStaysGone(run: seq<Event>, tail: seq<Event>, ifindex: int)
    requires After(run, ifindex).None? && Silent(tail)
    ensures After(run + tail, ifindex).None?
  {
    if tail == [] {
      assert run + tail == run;
    } else {
      SilentStaysGone(run, Init(tail), ifindex);
      assert Init(run + tail) == run + Init(tail);
    }
  }

  /** Both exceptions are reachable, each by a single run. */
  lemma StuckRecords(s: Addr, now: int, ifindex: int, heap: int)
    ensures After([Heard(Block, [], now, heap)], ifindex) == Some(Fresh(ifindex, heap))
    ensures var run := [Heard(IsEx, [], now, heap), Heard(Block, [Source(s, 0)], now, heap)];
            Plausible(run) && After(run, ifindex).Some? && After(run, ifindex).value.nulls == 1
  {
    var no: seq<Source> := [];
    var one := [Source(s, 0)];
    assert Addrs(no) == {} && one[1..] == no;
    var e, f := Heard(IsEx, no, now, heap), Heard(Block, one, now, heap);
    assert Init([Heard(Block, no, now, heap)]) == [] && Init([e]) == [] && Init([e, f]) == [e];
    var r0 := Fresh(ifindex, heap);
    ExcludeOnInclude(r0, IsEx, no, now);
    var r1 := Handle(r0, IsEx, no, now);
    assert After([e], ifindex) == Some(r1) && r1.includes == [] && r1.excludes == [];
    BlockOnExclude(r1, one, now);
    SelectTrivial(one, {}, false);
  }

  // ---------------------------------------------------------------- where NULL nodes come from

  /** The record that event `n` of the run finds. */
  function Found(run: seq<Event>, n: nat, ifindex: int): Option<Record>
    requires n < |run|
  {
    After(run[..n], ifindex)
  }

  /** Event `n` is a BLOCK that meets an EXCLUDE record and names a source outside X and Y. */
  ghost predicate BlocksUnknown(run: seq<Event>, n: nat, ifindex: int)
    requires n < |run|
  {
    var st := Found(run, n, ifindex);
    && run[n].Heard? && run[n].t == Block && st.Some? && st.value.mode == Exclude
    && !(Addrs(run[n].sources) <= Addrs(st.value.includes) + Addrs(st.value.excludes))
  }

  /** Event `n` is a report after which the include list is a new one: any report that asks for
      sources, and an exclude report on an INCLUDE record. */
  ghost predicate Rebuilds(run: seq<Event>, n: nat, ifindex: int)
    requires n < |run|
  {
    var st := Found(run, n, ifindex);
    && run[n].Heard? && run[n].t != Block
    && (run[n].t in {IsEx, ToEx} ==> st.None? || st.value.mode == Include)
  }

  /** A BLOCK at `n` has left NULL nodes, and no report since has rebuilt the list. */
  ghost predicate LeftAt(run: seq<Event>, n: nat, ifindex: int)
    requires n < |run|
  {
    BlocksUnknown(run, n, ifindex) && forall m :: n < m < |run| ==> !Rebuilds(run, m, ifindex)
  }

  ghost predicate LeftBehind(run: seq<Event>, ifindex: int) {
    exists n: nat :: n < |run| && LeftAt(run, n, ifindex)
  }

  lemma SameSoFar(run: seq<Event>, n: nat, ifindex: int)
    requires n + 1 < |run|
    ensures BlocksUnknown(Init(run), n, ifindex) <==> BlocksUnknown(run, n, ifindex)
    ensures Rebuilds(Init(run), n, ifindex) <==> Rebuilds(run, n, ifindex)
  {
    hide After;
    assert Init(run)[..n] == run[..n];
  }

  lemma LeftAtStep(run: seq<Event>, n: nat, ifindex: int)
    requires n + 1 < |run|
    ensures LeftAt(run, n, ifindex) <==> LeftAt(Init(run), n, ifindex) && !Rebuilds(run, |run| - 1, ifindex)
  {
    forall m: nat | m + 1 < |run|
      ensures BlocksUnknown(Init(run), m, ifindex) <==> BlocksUnknown(run, m, ifindex)
      ensures Rebuilds(Init(run), m, ifindex) <==> Rebuilds(run, m, ifindex)
    {
      SameSoFar(run, m, ifindex);
    }
    hide BlocksUnknown, Rebuilds;
  }

  lemma LeftBehindStep(run: seq<Event>, ifindex: int)
    requires run != []
    ensures var m := |run| - 1;
            LeftBehind(run, ifindex) <==>
            BlocksUnknown(run, m, ifindex) || (LeftBehind(Init(run), ifindex) && !Rebuilds(run, m, ifindex))
  {
    hide BlocksUnknown, Rebuilds;
    var m := |run| - 1;
    assert LeftAt(run, m, ifindex) <==> BlocksUnknown(run, m, ifindex);
    forall n: nat | n < m ensures LeftAt(run, n, ifindex) <==> LeftAt(Init(run), n, ifindex) && !Rebuilds(run, m, ifindex) {
      LeftAtStep(run, n, ifindex);
    }
    hide LeftAt;
  }

  /** What one report does to the NULL nodes. */
  lemma HandleNulls(r: Record, t: RecType, b: seq<Source>, now: int)
    ensures var n := Handle(r, t, b, now).nulls;
            if t != Block then n == if r.mode == Exclude && t in {IsEx, ToEx} then r.nulls else 0
            else if r.mode == Include || Addrs(b) <= Addrs(r.includes) + Addrs(r.excludes) then n == r.nulls
            else n > r.nulls
  {
    if r.mode == Exclude && t == Block {
      BlockOnExclude(r, b, now);
      var aMinusY := Difference(b, r.excludes);
      var rest := Difference(aMinusY, r.includes);
      SelectAddrs(b, Addrs(r.excludes), false);
      SelectAddrs(aMinusY, Addrs(r.includes), false);
      if rest == [] {
        assert Addrs(rest) == {};
        forall a | a in Addrs(b) ensures a in Addrs(r.includes) + Addrs(r.excludes) {
          assert a !in Addrs(rest);
        }
      } else {
        assert rest[0].addr in Addrs(rest);
      }
    }
  }

  /** On every run: a record holds NULL nodes if and only if a BLOCK that met it in EXCLUDE mode
      named a source it did not know, and its include list has not been rebuilt since. */
  lemma {:induction false} NullsExact(run: seq<Event>, ifindex: int)
    ensures (After(run, ifindex).Some? && After(run, ifindex).value.nulls > 0) <==> LeftBehind(run, ifindex)
  {
    if run != [] {
      NullsExact(Init(run), ifindex);
      LeftBehindStep(run, ifindex);
      var st, e := After(Init(run), ifindex), Last(run);
      assert Found(run, |run| - 1, ifindex) == st;
      if e.Heard? {
        HandleNulls(if st.Some? then st.value else Fresh(ifindex, e.heap), e.t, e.sources, e.now);
      }
      hide Handle, LeftBehind;
    }
  }

  /** So without BLOCK records there are none. */
  lemma NoBlockNoNulls(run: seq<Event>, ifindex: int)
    requires NoBlock(run) && After(run, ifindex).Some?
    ensures After(run, ifindex).value.nulls == 0
  {
    NullsExact(run, ifindex);
  }

  /** And a record that is in EXCLUDE mode or holds a source goes for good once the reports
      stop, when none of them was a BLOCK. */
  lemma NoBlockLapse(run: seq<Event>, tail: seq<Event>, ifindex: int)
    requires Plausible(run) && NoBlock(run) && After(run, ifindex).Some? && Silent(tail)
    requires LateSweeps(tail, LastHeard(run) + MALI) >= 2
    requires var r := After(run, ifindex).value; r.mode == Exclude || r.includes != []
    ensures After(run + tail, ifindex).None?
  {
    NoBlockNoNulls(run, ifindex);
    BoundedLapse(run, tail, ifindex);
  }

  /** One late sweep may not be enough: it turns an EXCLUDE record with a requested source
      into an INCLUDE record, whose expired source waits for the next one. */
  lemma OneSweepIsNotEnough(s: Addr, now: int, ifindex: int, heap: int)
    ensures var run := [Heard(IsIn, [Source(s, 0)], now, heap), Heard(IsEx, [Source(s, 0)], now, heap)];
            var st := After(run + [Swept(now + MALI)], ifindex);
            Plausible(run) && !Stuck(After(run, ifindex).value) && st.Some? && Addrs(st.value.includes) == {s}
  {
    var one := [Source(s, 0)];
    var e, f, late := Heard(IsIn, one, now, heap), Heard(IsEx, one, now, heap), Swept(now + MALI);
    assert Init([e]) == [] && Init([e, f]) == [e] && Init([e, f] + [late]) == [e, f];
    var r := AskedTwice(s, now, ifindex, heap);
    assert After([e], ifindex) == Some(Handle(Fresh(ifindex, heap), IsIn, one, now));
    assert After([e, f], ifindex) == Some(r);
    assert Addrs(r.includes) != {};
  }

  /** The record of that run. */
  lemma AskedTwice(s: Addr, now: int, ifindex: int, heap: int) returns (r: Record)
    ensures var one := [Source(s, 0)];
            r == Handle(Handle(Fresh(ifindex, heap), IsIn, one, now), IsEx, one, now)
    ensures r.mode == Exclude && r.filterTimer == now + MALI && r.nulls == 0 && Addrs(r.includes) == {s}
  {
    var one := [Source(s, 0)];
    assert Addrs(one) == {s} by { assert one[0] in one; }
    var r0 := Fresh(ifindex, heap);
    var r1 := Handle(r0, IsIn, one, now);
    HandleShaped(r0, IsIn, one, now);
    HandleIsCodeRow(r0, IsIn, one, now);
    r := Handle(r1, IsEx, one, now);
    HandleIsCodeRow(r1, IsEx, one, now);
    TimersKeys(r.includes);
    hide Timers, Select, AddNew, SetTimers;
    assert Abs(r).x.Keys == {s};
  }

  // ---------------------------------------------------------------- hidden state

  /** Equal up to what no observer can see: the exclude list and filter timer of an INCLUDE
      record, and the timers stored in an exclude list. */
  ghost predicate Alike(r: Record, q: Record) {
    && r.ifindex == q.ifindex && r.mode == q.mode && r.includes == q.includes && r.nulls == q.nulls
    && (r.mode == Exclude ==> r.filterTimer == q.filterTimer && SameAddrs(r.excludes, q.excludes))
  }

  ghost predicate SameAddrs(a: seq<Source>, b: seq<Source>) {
    |a| == |b| && forall i :: 0 <= i < |a| ==> a[i].addr == b[i].addr
  }

  ghost predicate AlikeOpt(r: Option<Record>, q: Option<Record>) {
    if r.Some? then q.Some? && Alike(r.value, q.value) else q.None?
  }

  lemma SameAddrsSet(a: seq<Source>, b: seq<Source>)
    requires SameAddrs(a, b)
    ensures Addrs(a) == Addrs(b)
  {
    forall x: Addr | x in Addrs(a) ensures x in Addrs(b) {
      var i :| 0 <= i < |a| && a[i].addr == x;
      assert b[i] in b;
    }
    forall x: Addr | x in Addrs(b) ensures x in Addrs(a) {
      var i :| 0 <= i < |b| && b[i].addr == x;
      assert a[i] in a;
    }
  }

  lemma {:induction false} SameAddrsSelect(a: seq<Source>, b: seq<Source>, s: set<Addr>, inside: bool)
    requires SameAddrs(a, b)
    ensures SameAddrs(Select(a, s, inside), Select(b, s, inside))
  {
    if a != [] {
      SameAddrsSelect(a[1..], b[1..], s, inside);
    }
  }

  lemma {:induction false} SameAddrsRemoveFirst(a: seq<Source>, b: seq<Source>, x: Addr)
    requires SameAddrs(a, b)
    ensures SameAddrs(RemoveFirst(a, x), RemoveFirst(b, x))
  {
    if a != [] && a[0].addr != x {
      SameAddrsRemoveFirst(a[1..], b[1..], x);
    }
  }

  lemma {:induction false} SameAddrsRemoveAll(a: seq<Source>, b: seq<Source>, c: seq<Source>)
    requires SameAddrs(a, b)
    ensures SameAddrs(RemoveAll(a, c), RemoveAll(b, c))
    decreases |c|
  {
    if c != [] {
      SameAddrsRemoveFirst(a, b, c[0].addr);
      SameAddrsRemoveAll(RemoveFirst(a, c[0].addr), RemoveFirst(b, c[0].addr), c[1..]);
    }
  }

  /** RemoveAll depends on the addresses of its second operand only. */
  lemma {:induction false} RemoveAllSame(a: seq<Source>, b: seq<Source>, c: seq<Source>)
    requires SameAddrs(b, c)
    ensures RemoveAll(a, b) == RemoveAll(a, c)
    decreases |b|
  {
    if b != [] {
      RemoveAllSame(RemoveFirst(a, b[0].addr), b[1..], c[1..]);
    }
  }

  /** The hidden part is never revealed: alike records are handled alike, ask the same
      queries, expire alike and give the same verdicts. */
  lemma HandleAlike(r: Record, q: Record, t: RecType, b: seq<Source>, now: int)
    requires Alike(r, q)
    ensures Alike(Handle(r, t, b, now), Handle(q, t, b, now))
    ensures Queries(r, t, b) == Queries(q, t, b)
  {
    if r.mode == Exclude {
      SameAddrsSet(r.excludes, q.excludes);
      SameAddrsSelect(r.excludes, q.excludes, Addrs(b), true);
      if t == IsEx || t == ToEx {
        ExcludeAlike(r, q, t, b, now);
      }
    }
  }

  lemma ExcludeAlike(r: Record, q: Record, t: RecType, b: seq<Source>, now: int)
    requires Alike(r, q) && r.mode == Exclude && (t == IsEx || t == ToEx)
    ensures Alike(Handle(r, t, b, now), Handle(q, t, b, now))
  {
    SameAddrsSet(r.excludes, q.excludes);
    var xMinusA := Difference(r.includes, b);
    SameAddrsRemoveAll(r.excludes, q.excludes, xMinusA);
    var y, z := RemoveAll(r.excludes, xMinusA), RemoveAll(q.excludes, xMinusA);
    SameAddrsSelect(y, z, Addrs(b), false);
    var yMinusA, zMinusA := Difference(y, b), Difference(z, b);
    RemoveAllSame(RemoveAll(r.includes, xMinusA), yMinusA, zMinusA);
    SameAddrsRemoveAll(y, z, yMinusA);
    RemoveAllSame(z, yMinusA, zMinusA);
  }

  lemma ExpiryAlike(r: Record, q: Record, s: Addr, now: int)
    requires Alike(r, q)
    ensures AlikeOpt(Sweep(r, now), Sweep(q, now))
    ensures AlikeOpt(Touch(r, s, now), Touch(q, s, now))
    ensures Accepts(r, s, now) == Accepts(q, s, now)
  {
    if r.mode == Exclude {
      SameAddrsSet(r.excludes, q.excludes);
    }
  }
}
