/** Where src/mld2_logic.c departs from RFC 3810: first what it does to any record, source by
    source, then each departure on a run that shows it, with what the code makes of the last
    report beside what the standard makes of it. */
module Deviations {
  import opened Sources
  import opened Mld2
  import opened Rfc3810
  import opened Lease

  // ---------------------------------------------------------------- on every record

  /** The INCLUDE rows with D5: whatever is queried has the query time afterwards, even if it had
      less. */
  lemma OfInclude(r: Record, t: RecType, b: seq<Source>, now: int, p: Addr)
    requires Shaped(r) && r.mode == Include
    ensures var r', x, asked := Handle(r, t, b, now), p in Addrs(r.includes), p in Addrs(b);
            && r'.mode == (if t in {IsEx, ToEx} then Exclude else Include)
            && (p in Addrs(r'.includes) <==>
                  if t in {IsEx, ToEx} then x && asked else if t == Block then x else x || asked)
            && (p in Addrs(r'.includes) ==>
                  p in Timers(r'.includes) && (!asked || t !in {IsIn, Allow, ToIn} ==> p in Timers(r.includes)) &&
                  Timers(r'.includes)[p] ==
                  if asked && t in {IsIn, Allow, ToIn} then now + MALI
                  else if (asked && t in {ToEx, Block}) || (!asked && t == ToIn) then now + LLQI
                  else Timers(r.includes)[p])
            && (r'.mode == Exclude ==> (p in Addrs(r'.excludes) <==> asked && !x) && r'.filterTimer == now + MALI)
  {
    HandleIsCodeRow(r, t, b, now);
    TimersKeys(r.includes);
    TimersKeys(Handle(r, t, b, now).includes);
    assert Handle(r, t, b, now).mode == CodeRow(Abs(r), t, Addrs(b), now).mode;
    hide Handle, Timers;
    assert t in {IsEx, ToEx} ==> Addrs(b) - Addrs(r.includes) == CodeRow(Abs(r), t, Addrs(b), now).y;
  }

  /** D1 and D2: after a report that asks for sources, an EXCLUDE record keeps out what it kept
      out before if and only if it is asked for; all sources of both lists start afresh, except
      that TO_IN gives the ones it does not name the query time. */
  lemma AskedOfExclude(r: Record, t: RecType, b: seq<Source>, now: int, p: Addr)
    requires Shaped(r) && r.mode == Exclude && t in {IsIn, Allow, ToIn}
    ensures var r' := Handle(r, t, b, now);
            && (p in Addrs(r'.excludes) <==> p in Addrs(r.excludes) && p in Addrs(b))
            && (p in Addrs(r'.includes) <==> p in Addrs(r.includes) || p in Addrs(b))
            && (p in Addrs(r'.includes) ==>
                  p in Timers(r'.includes) &&
                  Timers(r'.includes)[p] == if t == ToIn && p !in Addrs(b) then now + LLQI else now + MALI)
            && r'.mode == Exclude && r'.filterTimer == if t == ToIn then now + LLQI else r.filterTimer
  {
    HandleIsCodeRow(r, t, b, now);
    TimersKeys(r.includes);
    TimersKeys(Handle(r, t, b, now).includes);
    assert Abs(Handle(r, t, b, now)).y == Addrs(r.excludes) * Addrs(b);
    hide Handle, Timers;
  }

  /** D3: after an exclude report, an EXCLUDE record requests what it requested before and what is
      named, and nothing that is new; it keeps out what it kept out before and what is named. */
  lemma NamedToExclude(r: Record, t: RecType, b: seq<Source>, now: int, p: Addr)
    requires Shaped(r) && r.mode == Exclude && t in {IsEx, ToEx}
    ensures var r' := Handle(r, t, b, now);
            && (p in Addrs(r'.includes) <==> p in Addrs(r.includes) && p in Addrs(b))
            && (p in Addrs(r'.excludes) <==> p in Addrs(r.excludes) && p in Addrs(b))
            && (p in Addrs(r'.includes) ==>
                  p in Timers(r'.includes) && p in Timers(r.includes) &&
                  Timers(r'.includes)[p] == if t == ToEx && p !in Addrs(r.excludes) then now + LLQI else Timers(r.includes)[p])
            && r'.mode == Exclude && r'.filterTimer == now + MALI
  {
    HandleIsCodeRow(r, t, b, now);
    TimersKeys(r.includes);
    TimersKeys(Handle(r, t, b, now).includes);
    assert Abs(Handle(r, t, b, now)).y == Addrs(r.excludes) * Addrs(b);
    hide Handle, Timers;
  }

  /** D4 and D5: after a BLOCK, an EXCLUDE record requests and keeps out the same sources; the
      requested ones that are named and not kept out have the query time, whatever they had. */
  lemma BlockedOfExclude(r: Record, b: seq<Source>, now: int, p: Addr)
    requires Shaped(r) && r.mode == Exclude
    ensures var r' := Handle(r, Block, b, now);
            && Addrs(r'.includes) == Addrs(r.includes) && r'.excludes == r.excludes
            && (p in Addrs(r.includes) ==>
                  p in Timers(r'.includes) && p in Timers(r.includes) &&
                  Timers(r'.includes)[p] ==
                  if p in Addrs(b) && p !in Addrs(r.excludes) then now + LLQI else Timers(r.includes)[p])
            && r'.mode == Exclude && r'.filterTimer == r.filterTimer
  {
    BlockOnExclude(r, b, now);
    HandleIsCodeRow(r, Block, b, now);
    TimersKeys(r.includes);
    TimersKeys(Handle(r, Block, b, now).includes);
    hide Handle, Timers;
  }

  // ---------------------------------------------------------------- on runs

  function Report(t: RecType, b: seq<Source>, now: int): Event {
    Heard(t, b, now, 0)
  }

  /** The record after a run of reports, and what a further report makes of it. */
  function Reached(run: seq<Event>, ifindex: int): Record {
    if After(run, ifindex).Some? then After(run, ifindex).value else Fresh(ifindex, 0)
  }

  function Code(run: seq<Event>, e: Event, ifindex: int): State
    requires e.Heard?
  {
    Abs(Handle(Reached(run, ifindex), e.t, e.sources, e.now))
  }

  function Rfc(run: seq<Event>, e: Event, ifindex: int): State
    requires e.Heard?
  {
    RfcRow(Abs(Reached(run, ifindex)), e.t, Addrs(e.sources), e.now)
  }

  lemma {:induction false} ReachedShaped(run: seq<Event>, ifindex: int)
    requires forall k :: 0 <= k < |run| ==> run[k].Heard? && DupFree(run[k].sources)
    ensures Shaped(Reached(run, ifindex))
  {
    if run != [] {
      ReachedShaped(Init(run), ifindex);
      HandleShaped(Reached(Init(run), ifindex), Last(run).t, Last(run).sources, Last(run).now);
    }
  }

  /** One more report, on sets. */
  lemma ReachedNext(run: seq<Event>, e: Event, ifindex: int)
    requires (forall k :: 0 <= k < |run| ==> run[k].Heard? && DupFree(run[k].sources)) && e.Heard? && e.heap == 0
    ensures Abs(Reached(run + [e], ifindex)) == Code(run, e, ifindex)
            == CodeRow(Abs(Reached(run, ifindex)), e.t, Addrs(e.sources), e.now)
  {
    assert Init(run + [e]) == run && Last(run + [e]) == e;
    ReachedShaped(run, ifindex);
    HandleIsCodeRow(Reached(run, ifindex), e.t, e.sources, e.now);
  }

  lemma Lists(s: Addr)
    ensures Addrs([Source(s, 0)]) == {s} && Addrs([]) == {}
  {
    assert [Source(s, 0)][0] in [Source(s, 0)];
  }

  /** D1: a source that was excluded and is asked for now stays excluded. */
  lemma StaysExcluded(s: Addr, now: int, ifindex: int)
    ensures var run, e := [Report(IsEx, [Source(s, 0)], now)], Report(IsIn, [Source(s, 0)], now);
            Code(run, e, ifindex).y == {s} && Rfc(run, e, ifindex).y == {}
  {
    Lists(s);
    var first, e := Report(IsEx, [Source(s, 0)], now), Report(IsIn, [Source(s, 0)], now);
    ReachedNext([], first, ifindex);
    assert [] + [first] == [first];
    ReachedNext([first], e, ifindex);
  }

  /** D1, the other way round: a source that nobody asked for is let in. */
  lemma IsLetIn(s: Addr, now: int, ifindex: int)
    ensures var run, e := [Report(IsEx, [Source(s, 0)], now)], Report(IsIn, [], now);
            Code(run, e, ifindex).y == {} && Rfc(run, e, ifindex).y == {s}
  {
    Lists(s);
    var first, e := Report(IsEx, [Source(s, 0)], now), Report(IsIn, [], now);
    ReachedNext([], first, ifindex);
    assert [] + [first] == [first];
    ReachedNext([first], e, ifindex);
  }

  lemma AskedThenExcluded(s: Addr, now: int, ifindex: int)
    ensures var run := [Report(IsIn, [Source(s, 0)], now), Report(IsEx, [Source(s, 0)], now)];
            Abs(Reached(run, ifindex)) == State(Exclude, map[s := now + MALI], {}, now + MALI)
  {
    Lists(s);
    var first, second := Report(IsIn, [Source(s, 0)], now), Report(IsEx, [Source(s, 0)], now);
    ReachedNext([], first, ifindex);
    assert [] + [first] == [first] && [first] + [second] == [first, second];
    assert Abs(Reached([first], ifindex)).x == map[s := now + MALI];
    ReachedNext([first], second, ifindex);
  }

  /** D2: a report that does not mention a source refreshes it. */
  lemma IsRefreshed(s: Addr, now: int, ifindex: int)
    ensures var run := [Report(IsIn, [Source(s, 0)], now), Report(IsEx, [Source(s, 0)], now)];
            var e := Report(IsIn, [], now + 1);
            Code(run, e, ifindex).x == map[s := now + 1 + MALI] && Rfc(run, e, ifindex).x == map[s := now + MALI]
  {
    Lists(s);
    AskedThenExcluded(s, now, ifindex);
    hide Reached;
    var run := [Report(IsIn, [Source(s, 0)], now), Report(IsEx, [Source(s, 0)], now)];
    assert DupFree([Source(s, 0)]);
    ReachedNext(run, Report(IsIn, [], now + 1), ifindex);
  }

  /** D3: a source that an EXCLUDE report names is not requested afterwards. */
  lemma IsNotRequested(s: Addr, now: int, ifindex: int)
    ensures var run, e := [Report(IsEx, [], now)], Report(IsEx, [Source(s, 0)], now);
            Code(run, e, ifindex).x == map[] && Rfc(run, e, ifindex).x == map[s := now + MALI]
  {
    Lists(s);
    var first, e := Report(IsEx, [], now), Report(IsEx, [Source(s, 0)], now);
    ReachedNext([], first, ifindex);
    assert [] + [first] == [first];
    ReachedNext([first], e, ifindex);
  }

  /** D4: nor after a BLOCK report, which leaves a NULL node instead. */
  lemma LeavesNull(s: Addr, now: int, ifindex: int)
    ensures var run, e := [Report(IsEx, [], now)], Report(Block, [Source(s, 0)], now);
            && Code(run, e, ifindex).x == map[] && Rfc(run, e, ifindex).x == map[s := now + LLQI]
            && Reached(run + [e], ifindex).nulls == 1
  {
    Lists(s);
    var first, e := Report(IsEx, [], now), Report(Block, [Source(s, 0)], now);
    ReachedNext([], first, ifindex);
    assert [] + [first] == [first];
    ReachedNext([first], e, ifindex);
    var r := Reached([first], ifindex);
    assert Init([first, e]) == [first] && [first] + [e] == [first, e] && Last([first, e]) == e;
    TimersKeys(r.includes);
    BlockOnExclude(r, e.sources, now);
    SelectTrivial(e.sources, Addrs(r.excludes), false);
    SelectTrivial(e.sources, Addrs(r.includes), false);
    ExcludeOnInclude(Fresh(ifindex, 0), IsEx, [], now);
  }

  /** D5: a query gives an almost expired source more time instead of less. */
  lemma IsProlonged(s: Addr, now: int, ifindex: int)
    ensures var run, e := [Report(IsIn, [Source(s, 0)], now)], Report(Block, [Source(s, 0)], now + MALI - 1);
            && Code(run, e, ifindex).x == map[s := now + MALI - 1 + LLQI]
            && Rfc(run, e, ifindex).x == map[s := now + MALI]
  {
    Lists(s);
    var first, e := Report(IsIn, [Source(s, 0)], now), Report(Block, [Source(s, 0)], now + MALI - 1);
    ReachedNext([], first, ifindex);
    assert [] + [first] == [first];
    ReachedNext([first], e, ifindex);
  }
}
