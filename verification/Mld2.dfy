/** The MLDv2 router state of one (group, interface) pair and its transitions, as
    src/mld2_logic.c computes them.  Everything here is on values; GrpInt.dfy proves the
    pointer code equal to it, and Rfc3810.dfy compares it with the tables of RFC 3810.

    The code departs from its own comments in four places, and the functions below follow
    the code.  They are marked D1 to D4. */
module Mld2 {
  import opened Sources

  /** Multicast Address Listening Interval and Last Listener Query Interval. */
  const MALI: int := 125 * 2 + 10
  const LLQI: int := 2

  datatype Mode = Include | Exclude

  /** Group record types 1 to 6 of RFC 3810, section 5.2.12. */
  datatype RecType = IsIn | IsEx | ToIn | ToEx | Allow | Block

  /** `struct grpintnode`.  `nulls` counts the nodes of the include list whose data pointer
      is NULL: LIST_LOOP skips them, `list_isempty` and `count` do not. */
  datatype Record = Record(
    ifindex: int,
    mode: Mode,
    includes: seq<Source>,
    nulls: nat,
    excludes: seq<Source>,
    filterTimer: int)

  /** What is handed to `mld_send_query` for the group at hand. */
  datatype Query = AskSource(source: Addr) | AskGroup

  function Ask(l: seq<Source>): seq<Query> {
    seq(|l|, i requires 0 <= i < |l| => AskSource(l[i].addr))
  }

  /** `grpint_create`.  `filter_timer` is left as malloc found it. */
  function Fresh(ifindex: int, heap: int): Record {
    Record(ifindex, Include, [], 0, [], heap)
  }

  // ---------------------------------------------------------------- reports

  /** `handle_downstream_subscription` on an INCLUDE record. */
  function FromInclude(r: Record, t: RecType, b: seq<Source>, now: int): Record
    requires r.mode == Include
  {
    match t
    case IsIn | Allow =>
      r.(includes := SetTimers(Union(r.includes, b), Addrs(b), now + MALI), nulls := 0)
    case ToIn =>
      var tmp := SetTimers(Union(r.includes, b), Addrs(b), now + MALI);
      r.(includes := SetTimers(tmp, Addrs(Difference(r.includes, b)), now + LLQI), nulls := 0)
    case IsEx | ToEx =>
      var join, bMinusA, aMinusB := Intersect(r.includes, b), Difference(b, r.includes), Difference(r.includes, b);
      var kept := SetTimers(Difference(join, aMinusB), Addrs(bMinusA), 0);
      r.(mode := Exclude,
         includes := if t == ToEx then SetTimers(kept, Addrs(join), now + LLQI) else kept,
         nulls := 0,
         excludes := Difference(bMinusA, aMinusB),
         filterTimer := now + MALI)
    case Block =>
      r.(includes := SetTimers(r.includes, Addrs(Intersect(r.includes, b)), now + LLQI))
  }

  /** `handle_downstream_subscription` on an EXCLUDE record. */
  function FromExclude(r: Record, t: RecType, a: seq<Source>, now: int): Record
    requires r.mode == Exclude
  {
    match t
    case IsIn | Allow =>
      // D1: the list named YminusA is an intersection.  D2: every timer is refreshed.
      var xPlusA := Union(r.includes, a);
      r.(includes := SetTimers(xPlusA, Addrs(xPlusA), now + MALI), nulls := 0,
         excludes := Intersect(r.excludes, a))
    case ToIn =>
      var xPlusA := Union(r.includes, a);
      var refreshed := SetTimers(xPlusA, Addrs(xPlusA), now + MALI);
      r.(includes := SetTimers(refreshed, Addrs(Difference(r.includes, a)), now + LLQI), nulls := 0,
         excludes := Intersect(r.excludes, a),
         filterTimer := now + LLQI)
    case IsEx | ToEx =>
      // D3: A-X-Y is computed, but never added to the include list.
      var aMinusY := Difference(a, r.excludes);
      var aMinXminY := Difference(aMinusY, r.includes);
      var xMinusA := Difference(r.includes, a);
      var x, y := RemoveAll(r.includes, xMinusA), RemoveAll(r.excludes, xMinusA);
      var yMinusA := Difference(y, a);
      var x', y' := RemoveAll(x, yMinusA), RemoveAll(y, yMinusA);
      var timer := if t == IsEx then now + MALI else r.filterTimer;
      var x'', y'' := SetTimers(x', Addrs(aMinXminY), timer), SetTimers(y', Addrs(aMinXminY), timer);
      r.(includes := if t == ToEx then SetTimers(x'', Addrs(aMinusY), now + LLQI) else x'',
         excludes := if t == ToEx then SetTimers(y'', Addrs(aMinusY), now + LLQI) else y'',
         filterTimer := now + MALI)
    case Block =>
      // D4: list_add_all adds one NULL node for each source it should have added.
      var aMinusY := Difference(a, r.excludes);
      var aMinXminY := Difference(aMinusY, r.includes);
      var x := SetTimers(r.includes, Addrs(aMinXminY), r.filterTimer);
      r.(includes := SetTimers(x, Addrs(aMinusY), now + LLQI),
         nulls := r.nulls + |aMinXminY|,
         excludes := SetTimers(r.excludes, Addrs(aMinusY), now + LLQI))
  }

  /** The record after a report of type `t` with source list `b`, received at `now`. */
  function Handle(r: Record, t: RecType, b: seq<Source>, now: int): Record {
    if r.mode == Include then FromInclude(r, t, b, now) else FromExclude(r, t, b, now)
  }

  /** The queries that report triggers, in order. */
  function Queries(r: Record, t: RecType, b: seq<Source>): seq<Query> {
    match (r.mode, t)
    case (Include, ToIn) => Ask(Difference(r.includes, b))
    case (Include, ToEx) => Ask(Intersect(r.includes, b))
    case (Include, Block) => Ask(Intersect(r.includes, b))
    case (Exclude, ToIn) => Ask(Difference(r.includes, b)) + [AskGroup]
    case (Exclude, ToEx) => Ask(Difference(b, r.excludes))
    case (Exclude, Block) => Ask(Difference(b, r.excludes))
    case _ => []
  }

  // ---------------------------------------------------------------- timers

  /** `list_isempty` of the include list. */
  predicate NoIncludes(r: Record) {
    r.includes == [] && r.nulls == 0
  }

  /** `mld2_switch_to_include`: the record disappears when its include list is empty. */
  function SwitchToInclude(r: Record): Option<Record> {
    if NoIncludes(r) then None else Some(r.(mode := Include))
  }

  /** What one pass of `expire_sources` leaves of a record.  The removal test is made after
      a deletion only, so a record whose list was empty beforehand stays. */
  function Sweep(r: Record, now: int): Option<Record> {
    if r.mode == Exclude then
      if r.filterTimer <= now then SwitchToInclude(r) else Some(r)
    else
      var swept := r.(includes := Unexpired(r.includes, now));
      if swept.includes != r.includes && NoIncludes(swept) then None else Some(swept)
  }

  /** `expire_source` on the entry `list_hasmember` finds for `s`. */
  function ExpireOne(r: Record, s: Addr, now: int): Option<Record>
    requires s in Addrs(r.includes)
  {
    if Find(r.includes, s).timer > now then Some(r)
    else
      var left := r.(includes := RemoveFirst(r.includes, s));
      if NoIncludes(left) then None else Some(left)
  }

  /** `r` after `expire_source` on its entry for `s`. */
  function WithoutExpired(r: Record, s: Addr, now: int): Record
    requires s in Addrs(r.includes)
  {
    if Find(r.includes, s).timer <= now then r.(includes := RemoveFirst(r.includes, s)) else r
  }

  /** The first entry for an address: the element `list_hasmember` returns. */
  function Find(l: seq<Source>, s: Addr): (x: Source)
    requires s in Addrs(l)
    ensures x in l && x.addr == s
  {
    if l[0].addr == s then l[0]
    else
      AddrsCons(l);
      Find(l[1..], s)
  }

  /** What the forwarder does to a record when a packet from `s` comes by. */
  function Touch(r: Record, s: Addr, now: int): Option<Record> {
    if r.mode == Exclude then
      if r.filterTimer <= now then SwitchToInclude(r) else Some(r)
    else if s in Addrs(r.includes) then ExpireOne(r, s, now)
    else Some(r)
  }

  // ---------------------------------------------------------------- verdict

  /** Whether a record lets a source through at `now`: the test of `check_route`. */
  predicate Accepts(r: Record, s: Addr, now: int) {
    if r.mode == Include then s in Addrs(r.includes)
    else r.filterTimer > now && s !in Addrs(r.excludes)
  }

  // ---------------------------------------------------------------- shape

  /** Both lists are duplicate-free: what every reachable record satisfies. */
  ghost predicate Shaped(r: Record) {
    DupFree(r.includes) && DupFree(r.excludes)
  }

  /** The new include list of an EXCLUDE record after IS_EX or TO_EX, without the steps
      that cancel out: X*A, with X-Y-A untouched by the timer calls on A-X-Y. */
  lemma ExcludeOnExclude(r: Record, t: RecType, a: seq<Source>, now: int)
    requires r.mode == Exclude && (t == IsEx || t == ToEx) && Shaped(r)
    ensures var x := Intersect(r.includes, a);
            Handle(r, t, a, now).includes ==
            if t == ToEx then SetTimers(x, Addrs(Difference(a, r.excludes)), now + LLQI) else x
    ensures Handle(r, t, a, now).excludes == Intersect(r.excludes, a)
  {
    var aMinusY := Difference(a, r.excludes);
    var aMinXminY := Difference(aMinusY, r.includes);
    SelectAddrs(a, Addrs(r.excludes), false);
    SelectAddrs(aMinusY, Addrs(r.includes), false);
    var xMinusA := Difference(r.includes, a);
    SelectAddrs(r.includes, Addrs(a), false);
    var x, y := Difference(r.includes, xMinusA), Difference(r.excludes, xMinusA);
    RemoveAllIsDifference(r.includes, xMinusA);
    RemoveAllIsDifference(r.excludes, xMinusA);
    SelectDupFree(r.includes, Addrs(xMinusA), false);
    SelectDupFree(r.excludes, Addrs(xMinusA), false);
    var yMinusA := Difference(y, a);
    SelectAddrs(r.excludes, Addrs(xMinusA), false);
    SelectAddrs(y, Addrs(a), false);
    RemoveAllIsDifference(x, yMinusA);
    RemoveAllIsDifference(y, yMinusA);
    SelectSelect(r.includes, Addrs(xMinusA), false, Addrs(yMinusA), false, Addrs(a), true);
    SelectSelect(r.excludes, Addrs(xMinusA), false, Addrs(yMinusA), false, Addrs(a), true);
    SelectAddrs(r.includes, Addrs(a), true);
    SelectAddrs(r.excludes, Addrs(a), true);
    var timer := if t == IsEx then now + MALI else r.filterTimer;
    SetTimersIdle(Intersect(r.includes, a), Addrs(aMinXminY), timer);
    SetTimersIdle(Intersect(r.excludes, a), Addrs(aMinXminY), timer);
    SetTimersIdle(Intersect(r.excludes, a), Addrs(aMinusY), now + LLQI);
  }

  /** The same for the switch of an INCLUDE record: A*B stays, with its timers, and B-A is
      excluded. */
  lemma ExcludeOnInclude(r: Record, t: RecType, b: seq<Source>, now: int)
    requires r.mode == Include && (t == IsEx || t == ToEx)
    ensures var x := Intersect(r.includes, b);
            Handle(r, t, b, now).includes == if t == ToEx then SetTimers(x, Addrs(x), now + LLQI) else x
    ensures Handle(r, t, b, now).excludes == Difference(b, r.includes)
  {
    var join, bMinusA, aMinusB := Intersect(r.includes, b), Difference(b, r.includes), Difference(r.includes, b);
    SelectAddrs(r.includes, Addrs(b), true);
    SelectAddrs(r.includes, Addrs(b), false);
    SelectAddrs(b, Addrs(r.includes), false);
    assert forall x :: x in join ==> x.addr in Addrs(join);
    SelectTrivial(join, Addrs(aMinusB), false);
    assert forall x :: x in bMinusA ==> x.addr in Addrs(bMinusA);
    SelectTrivial(bMinusA, Addrs(aMinusB), false);
    SetTimersIdle(join, Addrs(bMinusA), 0);
  }

  /** The timer calls of a BLOCK that reach nothing, removed. */
  lemma BlockOnExclude(r: Record, a: seq<Source>, now: int)
    requires r.mode == Exclude
    ensures Handle(r, Block, a, now) ==
            r.(includes := SetTimers(r.includes, Addrs(Difference(a, r.excludes)), now + LLQI),
               nulls := r.nulls + |Difference(Difference(a, r.excludes), r.includes)|)
  {
    var aMinusY := Difference(a, r.excludes);
    SelectAddrs(a, Addrs(r.excludes), false);
    SelectAddrs(aMinusY, Addrs(r.includes), false);
    SetTimersIdle(r.includes, Addrs(Difference(aMinusY, r.includes)), r.filterTimer);
    SetTimersIdle(r.excludes, Addrs(aMinusY), now + LLQI);
  }
}
