/** The transition tables of RFC 3810, sections 7.4.1 and 7.4.2, on sets and timer maps,
    and how far src/mld2_logic.c implements them.

    `CodeRow` is what the list code computes, read as sets; `RfcRow` is the row of the
    standard.  They are proved equal exactly when `RowHolds`. */
module Rfc3810 {
  import opened Sources
  import opened Mld2

  /** Router state as the RFC has it: mode, requested or included sources with their
      timers, excluded sources, filter timer.  The last two mean nothing in INCLUDE mode. */
  datatype State = State(mode: Mode, x: map<Addr, int>, y: set<Addr>, filterTimer: int)

  function Timers(l: seq<Source>): map<Addr, int> {
    if l == [] then map[] else Timers(l[1..])[l[0].addr := l[0].timer]
  }

  function Abs(r: Record): State {
    if r.mode == Include then State(Include, Timers(r.includes), {}, 0)
    else State(Exclude, Timers(r.includes), Addrs(r.excludes), r.filterTimer)
  }

  /** Section 7.6.3.2: a queried timer is lowered to the last listener query time. */
  function Lower(t: int, now: int): int {
    if t > now + LLQI then now + LLQI else t
  }

  /** The row of section 7.4.1 or 7.4.2 for a report with sources `a`. */
  function RfcRow(s: State, t: RecType, a: set<Addr>, now: int): State {
    var x := s.x;
    match (s.mode, t)
    case (Include, IsIn) => s.(x := map p | p in x.Keys + a :: if p in a then now + MALI else x[p])
    case (Include, Allow) => s.(x := map p | p in x.Keys + a :: if p in a then now + MALI else x[p])
    case (Include, ToIn) =>
      s.(x := map p | p in x.Keys + a :: if p in a then now + MALI else Lower(x[p], now))
    case (Include, IsEx) =>
      State(Exclude, map p | p in x.Keys * a :: x[p], a - x.Keys, now + MALI)
    case (Include, ToEx) =>
      State(Exclude, map p | p in x.Keys * a :: Lower(x[p], now), a - x.Keys, now + MALI)
    case (Include, Block) =>
      s.(x := map p | p in x.Keys :: if p in a then Lower(x[p], now) else x[p])
    case (Exclude, IsIn) =>
      s.(x := map p | p in x.Keys + a :: if p in a then now + MALI else x[p], y := s.y - a)
    case (Exclude, Allow) =>
      s.(x := map p | p in x.Keys + a :: if p in a then now + MALI else x[p], y := s.y - a)
    case (Exclude, ToIn) =>
      State(Exclude, map p | p in x.Keys + a :: if p in a then now + MALI else Lower(x[p], now),
            s.y - a, Lower(s.filterTimer, now))
    case (Exclude, IsEx) =>
      State(Exclude, map p | p in a - s.y :: if p in x then x[p] else now + MALI, s.y * a, now + MALI)
    case (Exclude, ToEx) =>
      State(Exclude, map p | p in a - s.y :: Lower(if p in x then x[p] else s.filterTimer, now),
            s.y * a, now + MALI)
    case (Exclude, Block) =>
      s.(x := map p | p in x.Keys + (a - s.y) ::
                if p in a && p !in s.y then Lower(if p in x then x[p] else s.filterTimer, now) else x[p])
  }

  /** The sources the row queries, and whether it queries the whole group. */
  function RfcQueries(s: State, t: RecType, a: set<Addr>): (set<Addr>, bool) {
    match (s.mode, t)
    case (Include, ToIn) => (s.x.Keys - a, false)
    case (Include, ToEx) => (s.x.Keys * a, false)
    case (Include, Block) => (s.x.Keys * a, false)
    case (Exclude, ToIn) => (s.x.Keys - a, true)
    case (Exclude, ToEx) => (a - s.y, false)
    case (Exclude, Block) => (a - s.y, false)
    case _ => ({}, false)
  }

  /** What the code does, on sets. */
  function CodeRow(s: State, t: RecType, a: set<Addr>, now: int): State {
    var x := s.x;
    match (s.mode, t)
    case (Include, IsIn) => s.(x := map p | p in x.Keys + a :: if p in a then now + MALI else x[p])
    case (Include, Allow) => s.(x := map p | p in x.Keys + a :: if p in a then now + MALI else x[p])
    case (Include, ToIn) => s.(x := map p | p in x.Keys + a :: if p in a then now + MALI else now + LLQI)
    case (Include, IsEx) =>
      State(Exclude, map p | p in x.Keys * a :: x[p], a - x.Keys, now + MALI)
    case (Include, ToEx) =>
      State(Exclude, map p | p in x.Keys * a :: now + LLQI, a - x.Keys, now + MALI)
    case (Include, Block) => s.(x := map p | p in x.Keys :: if p in a then now + LLQI else x[p])
    case (Exclude, IsIn) => s.(x := map p | p in x.Keys + a :: now + MALI, y := s.y * a)
    case (Exclude, Allow) => s.(x := map p | p in x.Keys + a :: now + MALI, y := s.y * a)
    case (Exclude, ToIn) =>
      State(Exclude, map p | p in x.Keys + a :: if p in a then now + MALI else now + LLQI,
            s.y * a, now + LLQI)
    case (Exclude, IsEx) =>
      State(Exclude, map p | p in x.Keys * a :: x[p], s.y * a, now + MALI)
    case (Exclude, ToEx) =>
      State(Exclude, map p | p in x.Keys * a :: if p in s.y then x[p] else now + LLQI, s.y * a, now + MALI)
    case (Exclude, Block) =>
      s.(x := map p | p in x.Keys :: if p in a && p !in s.y then now + LLQI else x[p])
  }

  /** When the code meets the row of the standard, as a test on the state and the report.

      The INCLUDE rows fail only in lowering a timer that is below the query time already.
      In EXCLUDE mode, D1 and D2 demand that nothing is excluded and nothing needs its
      timer kept, D3 and D4 that the report names no source outside X+Y. */
  predicate RowHolds(s: State, t: RecType, a: set<Addr>, now: int) {
    match (s.mode, t)
    case (Include, IsIn) => true
    case (Include, Allow) => true
    case (Include, IsEx) => true
    case (Include, ToIn) => NotBelow(s.x, s.x.Keys - a, now)
    case (Include, ToEx) => NotBelow(s.x, s.x.Keys * a, now)
    case (Include, Block) => NotBelow(s.x, s.x.Keys * a, now)
    case (Exclude, IsIn) => s.y == {} && forall p | p in s.x.Keys - a :: s.x[p] == now + MALI
    case (Exclude, Allow) => s.y == {} && forall p | p in s.x.Keys - a :: s.x[p] == now + MALI
    case (Exclude, ToIn) => s.y == {} && NotBelow(s.x, s.x.Keys - a, now) && s.filterTimer >= now + LLQI
    case (Exclude, IsEx) => a <= s.x.Keys + s.y && s.x.Keys * s.y * a == {}
    case (Exclude, ToEx) => a <= s.x.Keys + s.y && s.x.Keys * s.y * a == {} && NotBelow(s.x, a - s.y, now)
    case (Exclude, Block) => a <= s.x.Keys + s.y && NotBelow(s.x, a - s.y, now)
  }

  predicate NotBelow(x: map<Addr, int>, ps: set<Addr>, now: int) {
    forall p | p in ps && p in x :: x[p] >= now + LLQI
  }

  // ---------------------------------------------------------------- lists as timer maps

  lemma {:induction false} TimersKeys(l: seq<Source>)
    ensures Timers(l).Keys == Addrs(l)
  {
    if l != [] {
      AddrsCons(l);
      TimersKeys(l[1..]);
    }
  }

  lemma {:induction false} TimersAt(l: seq<Source>, x: Source)
    requires DupFree(l) && x in l
    ensures x.addr in Timers(l) && Timers(l)[x.addr] == x.timer
  {
    if x != l[0] {
      TimersAt(l[1..], x);
      assert l[0].addr != x.addr;
    }
  }

  lemma TimersSelect(l: seq<Source>, s: set<Addr>, inside: bool)
    requires DupFree(l)
    ensures Timers(Select(l, s, inside)).Keys == if inside then Addrs(l) * s else Addrs(l) - s
    ensures forall p :: p in Timers(Select(l, s, inside)) ==> p in Timers(l) && Timers(Select(l, s, inside))[p] == Timers(l)[p]
  {
    var r := Select(l, s, inside);
    SelectAddrs(l, s, inside);
    SelectDupFree(l, s, inside);
    SelectMembers(l, s, inside);
    TimersKeys(r);
    forall p | p in Timers(r) ensures p in Timers(l) && Timers(r)[p] == Timers(l)[p] {
      var x :| x in r && x.addr == p;
      TimersAt(l, x);
      TimersAt(r, x);
    }
  }

  lemma TimersSet(l: seq<Source>, which: set<Addr>, v: int)
    requires DupFree(l)
    ensures Timers(SetTimers(l, which, v)).Keys == Timers(l).Keys == Addrs(l)
    ensures forall p :: p in Timers(l) ==> Timers(SetTimers(l, which, v))[p] == if p in which then v else Timers(l)[p]
  {
    SetTimersMeaning(l, which, v);
    var r := SetTimers(l, which, v);
    TimersKeys(l);
    TimersKeys(r);
    forall p | p in Timers(l) ensures Timers(r)[p] == if p in which then v else Timers(l)[p] {
      var x :| x in r && x.addr == p;
      TimersAt(r, x);
      if p !in which {
        TimersAt(l, x);
      }
    }
  }

  lemma TimersUnion(a: seq<Source>, b: seq<Source>)
    requires DupFree(a)
    ensures DupFree(Union(a, b)) && Timers(a).Keys == Addrs(a)
    ensures Timers(Union(a, b)).Keys == Addrs(a) + Addrs(b)
    ensures forall p :: p in Timers(a) ==> Timers(Union(a, b))[p] == Timers(a)[p]
  {
    UnionMeaning(a, b);
    var u := Union(a, b);
    TimersKeys(a);
    TimersKeys(u);
    forall p | p in Timers(a) ensures Timers(u)[p] == Timers(a)[p] {
      var x :| x in a && x.addr == p;
      TimersAt(a, x);
      TimersAt(u, x);
    }
  }

  /** The timers after a union and two timer calls. */
  lemma TimersRefreshed(a: seq<Source>, b: seq<Source>, s: set<Addr>, v: int, t: set<Addr>, w: int)
    requires DupFree(a) && Addrs(b) <= s
    ensures var r := SetTimers(SetTimers(Union(a, b), s, v), t, w);
            && Timers(r).Keys == Addrs(a) + Addrs(b)
            && (forall p :: p in Timers(r) && p !in t && p !in s ==> p in Timers(a))
            && (forall p :: p in Timers(r) ==>
                  Timers(r)[p] == if p in t then w else if p in s then v else Timers(a)[p])
  {
    var u := Union(a, b);
    TimersUnion(a, b);
    TimersSet(u, s, v);
    SetTimersMeaning(u, s, v);
    TimersSet(SetTimers(u, s, v), t, w);
  }

  // ---------------------------------------------------------------- the code on sets

  /** The list code computes `CodeRow`, for every record, report and time. */
  lemma HandleIsCodeRow(r: Record, t: RecType, b: seq<Source>, now: int)
    requires Shaped(r)
    ensures Abs(Handle(r, t, b, now)) == CodeRow(Abs(r), t, Addrs(b), now)
  {
    if r.mode == Include {
      IncludeIsCodeRow(r, t, b, now);
    } else {
      ExcludeIsCodeRow(r, t, b, now);
    }
  }

  lemma IncludeIsCodeRow(r: Record, t: RecType, b: seq<Source>, now: int)
    requires Shaped(r) && r.mode == Include
    ensures Abs(Handle(r, t, b, now)) == CodeRow(Abs(r), t, Addrs(b), now)
  {
    match t {
      case IsIn | Allow | ToIn => IncludeToIn(r, t, b, now);
      case IsEx | ToEx => IncludeToExclude(r, t, b, now);
      case Block =>
        SelectAddrs(r.includes, Addrs(b), true);
        TimersSet(r.includes, Addrs(Intersect(r.includes, b)), now + LLQI);
        assert Abs(Handle(r, t, b, now)).x == CodeRow(Abs(r), t, Addrs(b), now).x;
    }
  }

  lemma IncludeToIn(r: Record, t: RecType, b: seq<Source>, now: int)
    requires Shaped(r) && r.mode == Include && t in {IsIn, Allow, ToIn}
    ensures Abs(Handle(r, t, b, now)) == CodeRow(Abs(r), t, Addrs(b), now)
  {
    hide Select, SetTimers, Timers, Addrs, AddNew;
    var t2 := if t == ToIn then Addrs(Difference(r.includes, b)) else {};
    TimersKeys(r.includes);
    SelectAddrs(r.includes, Addrs(b), false);
    TimersRefreshed(r.includes, b, Addrs(b), now + MALI, t2, now + LLQI);
    var u := SetTimers(Union(r.includes, b), Addrs(b), now + MALI);
    var h := SetTimers(u, t2, now + LLQI);
    SetTimersIdle(u, {}, now + LLQI);
    var x := CodeRow(Abs(r), t, Addrs(b), now).x;
    assert Timers(h).Keys == x.Keys;
    assert forall p :: p in x ==> Timers(h)[p] == x[p];
    assert Timers(h) == x;
  }

  lemma IncludeToExclude(r: Record, t: RecType, b: seq<Source>, now: int)
    requires Shaped(r) && r.mode == Include && (t == IsEx || t == ToEx)
    ensures Abs(Handle(r, t, b, now)) == CodeRow(Abs(r), t, Addrs(b), now)
  {
    hide Select, SetTimers, Timers, Addrs;
    var x := Intersect(r.includes, b);
    ExcludeOnInclude(r, t, b, now);
    TimersSelect(r.includes, Addrs(b), true);
    SelectDupFree(r.includes, Addrs(b), true);
    SelectAddrs(r.includes, Addrs(b), true);
    SelectAddrs(b, Addrs(r.includes), false);
    TimersKeys(r.includes);
    TimersSet(x, Addrs(x), now + LLQI);
    var h, c := Abs(Handle(r, t, b, now)), CodeRow(Abs(r), t, Addrs(b), now);
    assert h.x == c.x;
  }

  lemma ExcludeIsCodeRow(r: Record, t: RecType, a: seq<Source>, now: int)
    requires Shaped(r) && r.mode == Exclude
    ensures Abs(Handle(r, t, a, now)) == CodeRow(Abs(r), t, Addrs(a), now)
  {
    match t {
      case IsIn | Allow => ExcludeAllow(r, t, a, now);
      case ToIn => ExcludeToIn(r, a, now);
      case IsEx => ExcludeIsEx(r, a, now);
      case ToEx => ExcludeToEx(r, a, now);
      case Block =>
        BlockOnExclude(r, a, now);
        SelectAddrs(a, Addrs(r.excludes), false);
        TimersSet(r.includes, Addrs(Difference(a, r.excludes)), now + LLQI);
        assert Abs(Handle(r, t, a, now)).x == CodeRow(Abs(r), t, Addrs(a), now).x;
    }
  }

  lemma ExcludeAllow(r: Record, t: RecType, a: seq<Source>, now: int)
    requires Shaped(r) && r.mode == Exclude && (t == IsIn || t == Allow)
    ensures Abs(Handle(r, t, a, now)) == CodeRow(Abs(r), t, Addrs(a), now)
  {
    hide Select, SetTimers, Timers, Addrs, AddNew;
    var u := Union(r.includes, a);
    TimersUnion(r.includes, a);
    TimersKeys(u);
    TimersSet(u, Addrs(u), now + MALI);
    SelectAddrs(r.excludes, Addrs(a), true);
    assert Timers(SetTimers(u, Addrs(u), now + MALI)) == CodeRow(Abs(r), t, Addrs(a), now).x;
  }

  lemma ExcludeToIn(r: Record, a: seq<Source>, now: int)
    requires Shaped(r) && r.mode == Exclude
    ensures Abs(Handle(r, ToIn, a, now)) == CodeRow(Abs(r), ToIn, Addrs(a), now)
  {
    hide Select, SetTimers, Timers, Addrs, AddNew;
    SelectAddrs(r.excludes, Addrs(a), true);
    ToInTimers(r.includes, a, now);
  }

  /** The timer part of that row. */
  lemma ToInTimers(x: seq<Source>, a: seq<Source>, now: int)
    requires DupFree(x)
    ensures var u := Union(x, a);
            Timers(SetTimers(SetTimers(u, Addrs(u), now + MALI), Addrs(Difference(x, a)), now + LLQI)) ==
            map p | p in Timers(x).Keys + Addrs(a) :: if p in Addrs(a) then now + MALI else now + LLQI
  {
    hide Select, SetTimers, Timers, Addrs, AddNew;
    var u, rest := Union(x, a), Addrs(Difference(x, a));
    UnionMeaning(x, a);
    TimersKeys(x);
    SelectAddrs(x, Addrs(a), false);
    TimersRefreshed(x, a, Addrs(u), now + MALI, rest, now + LLQI);
  }

  lemma ExcludeIsEx(r: Record, a: seq<Source>, now: int)
    requires Shaped(r) && r.mode == Exclude
    ensures Abs(Handle(r, IsEx, a, now)) == CodeRow(Abs(r), IsEx, Addrs(a), now)
  {
    ExcludeOnExclude(r, IsEx, a, now);
    SelectAddrs(r.excludes, Addrs(a), true);
    TimersKeys(r.includes);
    TimersSelect(r.includes, Addrs(a), true);
    assert Timers(Intersect(r.includes, a)) == CodeRow(Abs(r), IsEx, Addrs(a), now).x;
  }

  lemma ExcludeToEx(r: Record, a: seq<Source>, now: int)
    requires Shaped(r) && r.mode == Exclude
    ensures Abs(Handle(r, ToEx, a, now)) == CodeRow(Abs(r), ToEx, Addrs(a), now)
  {
    ExcludeOnExclude(r, ToEx, a, now);
    SelectAddrs(r.excludes, Addrs(a), true);
    QueriedTimers(r.includes, r.excludes, a, now);
  }

  lemma QueriedTimers(x: seq<Source>, y: seq<Source>, a: seq<Source>, now: int)
    requires DupFree(x)
    ensures Timers(SetTimers(Intersect(x, a), Addrs(Difference(a, y)), now + LLQI)) ==
            map p | p in Timers(x).Keys * Addrs(a) :: if p in Addrs(y) then Timers(x)[p] else now + LLQI
  {
    var kept, which := Intersect(x, a), Addrs(Difference(a, y));
    SelectAddrs(a, Addrs(y), false);
    SelectDupFree(x, Addrs(a), true);
    TimersKeys(x);
    TimersSelect(x, Addrs(a), true);
    TimersSet(kept, which, now + LLQI);
  }

  // ---------------------------------------------------------------- the code against the RFC

  /** The main comparison: a report is handled as the standard says if and only if
      `RowHolds` of the state it finds. */
  lemma TableRefinement(r: Record, t: RecType, b: seq<Source>, now: int)
    requires Shaped(r)
    ensures Abs(Handle(r, t, b, now)) == RfcRow(Abs(r), t, Addrs(b), now)
            <==> RowHolds(Abs(r), t, Addrs(b), now)
  {
    HandleIsCodeRow(r, t, b, now);
    var s, a := Abs(r), Addrs(b);
    if RowHolds(s, t, a, now) {
      RowSufficient(s, t, a, now);
    }
    if CodeRow(s, t, a, now) == RfcRow(s, t, a, now) {
      RowNecessary(s, t, a, now);
    }
  }

  lemma RowSufficient(s: State, t: RecType, a: set<Addr>, now: int)
    requires RowHolds(s, t, a, now)
    ensures CodeRow(s, t, a, now) == RfcRow(s, t, a, now)
  {
    var c, f := CodeRow(s, t, a, now), RfcRow(s, t, a, now);
    if s.mode == Exclude && t in {IsEx, ToEx} {
      forall p ensures p in s.x.Keys * a <==> p in a - s.y {
        assert p !in s.x.Keys * s.y * a;
      }
    }
    assert forall p :: p in c.x <==> p in f.x;
    assert forall p :: p in c.x ==> c.x[p] == f.x[p];
    assert c.x == f.x;
    assert c.y == f.y;
  }

  lemma RowNecessary(s: State, t: RecType, a: set<Addr>, now: int)
    requires CodeRow(s, t, a, now) == RfcRow(s, t, a, now)
    ensures RowHolds(s, t, a, now)
  {
    var c, f := CodeRow(s, t, a, now), RfcRow(s, t, a, now);
    forall p | p in s.x
      ensures p in c.x <==> p in f.x
      ensures p in c.x ==> c.x[p] == f.x[p]
    {
    }
    if s.mode == Exclude {
      match t {
        case IsIn | Allow | ToIn =>
          forall p ensures p !in s.y {
            assert p in c.y <==> p in f.y;
          }
        case IsEx | ToEx =>
          forall p ensures p in s.x.Keys * a <==> p in a - s.y {
            assert p in c.x <==> p in f.x;
          }
          assert forall p :: p in s.x.Keys * s.y * a ==> p in s.x.Keys * a;
          assert forall p :: p in a && p !in s.y ==> p in s.x.Keys * a;
        case Block =>
          forall p | p in a && p !in s.y ensures p in s.x {
            assert p in f.x;
          }
      }
    }
  }

  /** The queries are those of the standard in every case. */
  lemma QueriesAreRfc(r: Record, t: RecType, b: seq<Source>)
    ensures var (sources, group) := RfcQueries(Abs(r), t, Addrs(b));
            && (forall p: Addr :: AskSource(p) in Queries(r, t, b) <==> p in sources)
            && (AskGroup in Queries(r, t, b) <==> group)
  {
    SelectAddrs(r.includes, Addrs(b), true);
    SelectAddrs(r.includes, Addrs(b), false);
    SelectAddrs(b, Addrs(r.excludes), false);
    TimersKeys(r.includes);
    AskMeaning(Intersect(r.includes, b));
    AskMeaning(Difference(r.includes, b));
    AskMeaning(Difference(b, r.excludes));
  }

  /** And no query is sent twice. */
  lemma QueriesOnce(r: Record, t: RecType, b: seq<Source>)
    requires Shaped(r) && DupFree(b)
    ensures var q := Queries(r, t, b);
            forall i, j :: 0 <= i < j < |q| ==> q[i] != q[j]
  {
    SelectDupFree(r.includes, Addrs(b), true);
    SelectDupFree(r.includes, Addrs(b), false);
    SelectDupFree(b, Addrs(r.excludes), false);
    hide Select, Addrs;
  }

  lemma AskMeaning(l: seq<Source>)
    ensures forall p: Addr :: AskSource(p) in Ask(l) <==> p in Addrs(l)
    ensures AskGroup !in Ask(l)
  {
    forall p: Addr | p in Addrs(l) ensures AskSource(p) in Ask(l) {
      var i :| 0 <= i < |l| && l[i].addr == p;
      assert Ask(l)[i] == AskSource(p);
    }
    forall p: Addr | AskSource(p) in Ask(l) ensures p in Addrs(l) {
      var i :| 0 <= i < |l| && Ask(l)[i] == AskSource(p);
      assert l[i] in l;
    }
  }
}
