/** Changes to one record of the table, and the loops over the table one step at a time: the
    sequence algebra behind the methods of Conf.dfy. */
module Splices {
  import opened LinkedList
  import opened Sources
  import opened Mld2
  import opened Rfc3810
  import opened Lease
  import opened Table
  import opened Views

  /** Record `j` of group `k` replaced by `r`; an emptied group goes. */
  function Splice(t: seq<Group>, k: nat, j: nat, r: Option<Record>): seq<Group>
    requires k < |t| && j < |t[k].recs|
  {
    t[..k] + Kept(t[k], SpliceRecs(t[k].recs, j, r)) + t[k + 1..]
  }

  function SpliceRecs(recs: seq<Record>, j: nat, r: Option<Record>): seq<Record>
    requires j < |recs|
  {
    recs[..j] + OptSeq(r) + recs[j + 1..]
  }

  lemma {:induction false} SpliceRecsMeaning(recs: seq<Record>, j: nat, r: Option<Record>, i: int)
    requires j < |recs| && KeyedRecs(recs) && (r.Some? ==> r.value.ifindex == recs[j].ifindex)
    ensures KeyedRecs(SpliceRecs(recs, j, r))
    ensures FindRec(SpliceRecs(recs, j, r), i) == if i == recs[j].ifindex then r else FindRec(recs, i)
  {
    KeyedRecsTail(recs);
    assert j > 0 ==> recs[j].ifindex != recs[0].ifindex;
    hide KeyedRecs, HasRec;
    var made := SpliceRecs(recs, j, r);
    if j == 0 {
      FindRecSome(recs[1..], recs[0].ifindex);
      if r.Some? {
        KeyedRecsCons(r.value, recs[1..]);
        assert made == [r.value] + recs[1..] && made[1..] == recs[1..];
      } else {
        assert made == recs[1..];
      }
    } else {
      SpliceRecsMeaning(recs[1..], j - 1, r, i);
      SpliceRecsMeaning(recs[1..], j - 1, r, recs[0].ifindex);
      assert made == [recs[0]] + SpliceRecs(recs[1..], j - 1, r);
      assert made[1..] == SpliceRecs(recs[1..], j - 1, r);
      FindRecSome(recs[1..], recs[0].ifindex);
      FindRecSome(made[1..], recs[0].ifindex);
      KeyedRecsCons(recs[0], made[1..]);
    }
  }

  lemma SpliceHasGroup(t: seq<Group>, k: nat, j: nat, r: Option<Record>, g: Addr)
    requires k < |t| && j < |t[k].recs| && !HasGroup(t, g)
    ensures !HasGroup(Splice(t, k, j, r), g)
  {
    var made := Splice(t, k, j, r);
    forall m | 0 <= m < |made| ensures made[m].mca != g {
      assert m < k ==> made[m] == t[m];
      assert m > k ==> made[m] == t[m] || made[m] == t[m + 1];
      assert m == k ==> made[m].mca == t[k].mca || made[m] == t[k + 1];
    }
  }

  /** The splice is in the group in front. */
  lemma SpliceFirst(t: seq<Group>, j: nat, r: Option<Record>, g: Addr, i: int)
    requires Keyed(t) && t != [] && j < |t[0].recs| && (r.Some? ==> r.value.ifindex == t[0].recs[j].ifindex)
    ensures Keyed(Splice(t, 0, j, r))
    ensures Lookup(Splice(t, 0, j, r), g, i) ==
            if g == t[0].mca && i == t[0].recs[j].ifindex then r else Lookup(t, g, i)
  {
    hide Keyed, KeyedRecs, HasGroup, SpliceRecs;
    var recs, made := SpliceRecs(t[0].recs, j, r), Splice(t, 0, j, r);
    assert made == Kept(t[0], recs) + t[1..];
    hide Splice;
    KeyedTail(t);
    SpliceRecsMeaning(t[0].recs, j, r, i);
    LookupNone(t[1..], t[0].mca, i);
    if recs == [] {
      assert made == t[1..];
    } else {
      KeyedCons(t[0].(recs := recs), t[1..]);
      assert made == [t[0].(recs := recs)] + t[1..] && made[1..] == t[1..];
    }
  }

  lemma SpliceCons(t: seq<Group>, k: nat, j: nat, r: Option<Record>)
    requires 0 < k < |t| && j < |t[k].recs|
    ensures t[1..][k - 1] == t[k]
    ensures Splice(t, k, j, r) == [t[0]] + Splice(t[1..], k - 1, j, r)
    ensures Splice(t, k, j, r)[1..] == Splice(t[1..], k - 1, j, r)
  {
    hide SpliceRecs;
    assert t[1..][..k - 1] == t[1..k] && t[1..][k..] == t[k + 1..];
  }

  /** A splice changes one record and keeps the keys unique. */
  lemma {:induction false} SpliceMeaning(t: seq<Group>, k: nat, j: nat, r: Option<Record>, g: Addr, i: int)
    requires Keyed(t) && k < |t| && j < |t[k].recs| && (r.Some? ==> r.value.ifindex == t[k].recs[j].ifindex)
    ensures Keyed(Splice(t, k, j, r))
    ensures Lookup(Splice(t, k, j, r), g, i) ==
            if g == t[k].mca && i == t[k].recs[j].ifindex then r else Lookup(t, g, i)
  {
    if k == 0 {
      SpliceFirst(t, j, r, g, i);
    } else {
      KeyedTail(t);
      assert t[k].mca != t[0].mca;
      hide Keyed, KeyedRecs, HasGroup, Splice;
      SpliceCons(t, k, j, r);
      SpliceMeaning(t[1..], k - 1, j, r, g, i);
      SpliceHasGroup(t[1..], k - 1, j, r, t[0].mca);
      KeyedCons(t[0], Splice(t[1..], k - 1, j, r));
    }
  }

  lemma {:induction false} LookupAt(t: seq<Group>, k: nat, j: nat)
    requires Keyed(t) && k < |t| && j < |t[k].recs|
    ensures Lookup(t, t[k].mca, t[k].recs[j].ifindex) == Some(t[k].recs[j])
  {
    SpliceMeaning(t, k, j, Some(t[k].recs[j]), t[k].mca, t[k].recs[j].ifindex);
    assert SpliceRecs(t[k].recs, j, Some(t[k].recs[j])) == t[k].recs;
    assert Splice(t, k, j, Some(t[k].recs[j])) == t;
  }

  // ---------------------------------------------------------------- the upstream side

  /** On interface `i`, whatever a record wants is requested, and no group is joined that has no
      record there. */
  ghost predicate FitsOn(t: seq<Group>, up: map<int, seq<Call>>, i: int) {
    && (forall g: Addr, s: Addr :: Demands(t, g, i, s) ==> Requested(up, g, i, s))
    && (forall g: Addr :: JoinedOn(up, g, i) ==> Lookup(t, g, i).Some?)
  }

  ghost predicate Fits(t: seq<Group>, up: map<int, seq<Call>>) {
    forall i :: FitsOn(t, up, i)
  }

  /** The same for all interfaces but one. */
  ghost predicate FitsBut(t: seq<Group>, up: map<int, seq<Call>>, i: int) {
    forall j :: j != i ==> FitsOn(t, up, j)
  }

  predicate Demands(t: seq<Group>, g: Addr, i: int, s: Addr) {
    Lookup(t, g, i).Some? && Wants(Lookup(t, g, i).value, s)
  }

  predicate Requested(up: map<int, seq<Call>>, g: Addr, i: int, s: Addr) {
    i in up && Allows(up[i], g, s)
  }

  predicate JoinedOn(up: map<int, seq<Call>>, g: Addr, i: int) {
    i in up && Join(g) in up[i]
  }

  lemma {:induction false} JoinsIn(calls: seq<Call>, g: Addr)
    ensures Join(g) in calls <==> Joins(calls, g) > 0
  {
    if calls != [] {
      JoinsIn(calls[1..], g);
      assert calls == [calls[0]] + calls[1..];
    }
  }

  /** A group is joined on the interface only for a record that wants something. */
  ghost predicate JoinsMatter(t: seq<Group>, up: map<int, seq<Call>>, i: int) {
    forall g: Addr :: JoinedOn(up, g, i) ==> Holding(Lookup(t, g, i))
  }

  predicate Holding(r: Option<Record>) {
    r.Some? && !(r.value.mode == Include && NoIncludes(r.value))
  }

  lemma FitsRebuilt(t: seq<Group>, up: map<int, seq<Call>>, i: int)
    requires Keyed(t) && i in up && up[i] == Calls(t, i)
    ensures FitsOn(t, up, i) && JoinsMatter(t, up, i)
  {
    forall g: Addr, s: Addr | Demands(t, g, i, s) ensures Requested(up, g, i, s) {
      UpstreamMeaning(t, i, g, s);
    }
    forall g: Addr | JoinedOn(up, g, i) ensures Holding(Lookup(t, g, i)) {
      UpstreamMeaning(t, i, g, 0);
      JoinsIn(up[i], g);
    }
  }

  lemma FitsAfterRebuild(t: seq<Group>, up: map<int, seq<Call>>, i: int, up': map<int, seq<Call>>)
    requires Keyed(t) && FitsBut(t, up, i) && up' == up[i := Calls(t, i)]
    ensures Fits(t, up') && JoinsMatter(t, up', i)
  {
    FitsRebuilt(t, up', i);
    hide Calls, Lookup;
    forall j ensures FitsOn(t, up', j) {
      assert j != i ==> FitsOn(t, up, j);
    }
  }

  /** A splice leaves the other interfaces alone; on its own, it does no harm if the record wants
      no more than before, and if it stays or was not joined. */
  lemma FitsAfterSplice(t: seq<Group>, k: nat, j: nat, r: Option<Record>, up: map<int, seq<Call>>)
    requires Keyed(t) && k < |t| && j < |t[k].recs| && (r.Some? ==> r.value.ifindex == t[k].recs[j].ifindex)
    requires Fits(t, up)
    ensures Keyed(Splice(t, k, j, r))
    ensures FitsBut(Splice(t, k, j, r), up, t[k].recs[j].ifindex)
    ensures (if r.Some? then forall s: Addr :: Wants(r.value, s) ==> Wants(t[k].recs[j], s)
             else !JoinedOn(up, t[k].mca, t[k].recs[j].ifindex))
            ==> Fits(Splice(t, k, j, r), up)
  {
    var u, own := Splice(t, k, j, r), t[k].recs[j].ifindex;
    LookupAt(t, k, j);
    SpliceMeaning(t, k, j, r, 0, 0);
    forall g: Addr, i ensures Lookup(u, g, i) == if g == t[k].mca && i == own then r else Lookup(t, g, i) {
      SpliceMeaning(t, k, j, r, g, i);
    }
    hide Splice, Lookup, Keyed, Wants;
    forall i | i != own ensures FitsOn(u, up, i) {
      assert FitsOn(t, up, i);
      assert forall g: Addr, s: Addr :: Demands(u, g, i, s) ==> Demands(t, g, i, s);
    }
    if if r.Some? then forall s: Addr :: Wants(r.value, s) ==> Wants(t[k].recs[j], s) else !JoinedOn(up, t[k].mca, own) {
      assert FitsOn(t, up, own);
      assert forall g: Addr, s: Addr :: Demands(u, g, own, s) ==> Demands(t, g, own, s);
      assert FitsOn(u, up, own);
    }
  }

  // ---------------------------------------------------------------- loops, one step at a time

  lemma {:induction false} SweepRecsAppend(a: seq<Record>, b: seq<Record>, now: int)
    ensures SweepRecs(a + b, now) == SweepRecs(a, now) + SweepRecs(b, now)
  {
    if a == [] {
      assert a + b == b;
    } else {
      assert (a + b)[1..] == a[1..] + b && (a + b)[0] == a[0];
      SweepRecsAppend(a[1..], b, now);
    }
  }

  lemma {:induction false} SweepTableAppend(a: seq<Group>, b: seq<Group>, now: int)
    ensures SweepTable(a + b, now) == SweepTable(a, now) + SweepTable(b, now)
  {
    if a == [] {
      assert a + b == b;
    } else {
      assert (a + b)[1..] == a[1..] + b && (a + b)[0] == a[0];
      SweepTableAppend(a[1..], b, now);
    }
  }

  /** A sweep makes a record want less. */
  lemma UnexpiredWants(r: Record, now: int)
    ensures forall s: Addr :: Wants(r.(includes := Unexpired(r.includes, now)), s) ==> Wants(r, s)
  {
    UnexpiredMembers(r.includes, now);
  }

  lemma {:induction false} RemoveFirstMembers(l: seq<Source>, a: Addr)
    ensures Addrs(RemoveFirst(l, a)) <= Addrs(l)
  {
    if l != [] && l[0].addr != a {
      RemoveFirstMembers(l[1..], a);
      AddrsCons(l);
      AddrsCons(RemoveFirst(l, a));
      assert RemoveFirst(l, a)[1..] == RemoveFirst(l[1..], a);
    } else if l != [] {
      AddrsCons(l);
    }
  }

  /** So does the expiry of one source; and when that empties the record, it goes. */
  lemma WithoutExpiredWants(r: Record, s: Addr, now: int)
    requires r.mode == Include && s in Addrs(r.includes)
    ensures forall a: Addr :: Wants(WithoutExpired(r, s, now), a) ==> Wants(r, a)
    ensures ExpireOne(r, s, now).Some? ==> ExpireOne(r, s, now).value == WithoutExpired(r, s, now)
    ensures WithoutExpired(r, s, now).ifindex == r.ifindex
  {
    RemoveFirstMembers(r.includes, s);
  }

  /** Replacing a record and then replacing it again. */
  lemma SpliceTwice(t: seq<Group>, k: nat, j: nat, r: Record)
    requires k < |t| && j < |t[k].recs|
    ensures var u := Splice(t, k, j, Some(r));
            && |u| == |t| && u[k] == t[k].(recs := t[k].recs[j := r])
            && forall q: Option<Record> :: Splice(u, k, j, q) == Splice(t, k, j, q)
  {
    var u := Splice(t, k, j, Some(r));
    assert SpliceRecs(t[k].recs, j, Some(r)) == t[k].recs[j := r];
    assert u == t[..k] + [t[k].(recs := t[k].recs[j := r])] + t[k + 1..];
    assert u[..k] == t[..k] && u[k + 1..] == t[k + 1..];
    assert u[k].recs[..j] == t[k].recs[..j] && u[k].recs[j + 1..] == t[k].recs[j + 1..];
  }

  lemma SweepTableMore(t: seq<Group>, d: nat, now: int)
    requires d < |t|
    ensures SweepTable(t[..d + 1], now) == SweepTable(t[..d], now) + Kept(t[d], SweepRecs(t[d].recs, now))
  {
    hide SweepRecs;
    assert t[..d + 1] == t[..d] + [t[d]] && [t[d]][1..] == [];
    SweepTableAppend(t[..d], [t[d]], now);
    assert SweepTable([t[d]], now) == Kept(t[d], SweepRecs(t[d].recs, now));
  }

  /** One more group. */
  lemma SweepOneMore(t: seq<Group>, d: nat, u: seq<Group>, now: int)
    requires d < |t| && u == SweepTable(t[..d], now) + t[d..]
    ensures var k, recs := |SweepTable(t[..d], now)|, SweepRecs(t[d].recs, now);
            && k < |u| && u[k] == t[d]
            && u[..k] + Kept(u[k], recs) + u[k + 1..] == SweepTable(t[..d + 1], now) + t[d + 1..]
            && |SweepTable(t[..d + 1], now)| == k + if recs == [] then 0 else 1
  {
    hide SweepTable, SweepRecs;
    SweepTableMore(t, d, now);
    var done := SweepTable(t[..d], now);
    assert u[..|done|] == done && u[|done| + 1..] == t[d + 1..];
  }

  /** Where the sweep of a table starts and ends. */
  lemma SweepNothing(t: seq<Group>, now: int)
    ensures SweepTable(t[..0], now) == [] && t == SweepTable(t[..0], now) + t[0..]
  {
  }

  lemma SweepAllDone(t: seq<Group>, d: nat, now: int)
    requires d <= |t| && |SweepTable(t[..d], now) + t[d..]| == |SweepTable(t[..d], now)|
    ensures SweepTable(t[..d], now) + t[d..] == SweepTable(t, now)
  {
    assert |t[d..]| == |t| - d;
    assert t[..d] == t && SweepTable(t, now) + [] == SweepTable(t, now);
  }

  lemma SpliceSame(t: seq<Group>, k: nat, j: nat)
    requires k < |t| && j < |t[k].recs|
    ensures Splice(t, k, j, Some(t[k].recs[j])) == t
  {
    assert SpliceRecs(t[k].recs, j, Some(t[k].recs[j])) == t[k].recs;
  }

  /** Group `k` of `t`, with its first `e` records swept and `j` of them left. */
  ghost predicate Partly(t: seq<Group>, k: nat, now: int, u: seq<Group>, e: nat, j: nat)
    requires k < |t| && e <= |t[k].recs|
  {
    var recs := t[k].recs;
    && j == |SweepRecs(recs[..e], now)|
    && u == t[..k] + Kept(t[k], SweepRecs(recs[..e], now) + recs[e..]) + t[k + 1..]
  }

  lemma SweepStart(t: seq<Group>, k: nat, now: int)
    requires k < |t| && t[k].recs != []
    ensures Partly(t, k, now, t, 0, 0)
  {
    assert t[k].recs[..0] == [] && [] + t[k].recs[0..] == t[k].recs;
  }

  /** While records are left, group `k` is still there, and record `j` is the next to visit. */
  lemma PartlyAt(t: seq<Group>, k: nat, now: int, u: seq<Group>, e: nat, j: nat)
    requires k < |t| && e <= |t[k].recs| && Partly(t, k, now, u, e, j)
    requires SweepRecs(t[k].recs[..e], now) + t[k].recs[e..] != []
    ensures k < |u| && j <= |u[k].recs| && (j < |u[k].recs| <==> e < |t[k].recs|)
    ensures e < |t[k].recs| ==> u[k].recs[j] == t[k].recs[e]
  {
  }

  /** What is left of one more record. */
  lemma SweepRecsMore(recs: seq<Record>, e: nat, now: int)
    requires e < |recs|
    ensures SweepRecs(recs[..e + 1], now) == SweepRecs(recs[..e], now) + OptSeq(Sweep(recs[e], now))
  {
    assert recs[..e + 1] == recs[..e] + [recs[e]] && [recs[e]][1..] == [];
    SweepRecsAppend(recs[..e], [recs[e]], now);
    assert SweepRecs([recs[e]], now) == OptSeq(Sweep(recs[e], now));
  }

  /** One more record. */
  lemma PartlyStep(t: seq<Group>, k: nat, now: int, u: seq<Group>, e: nat, j: nat)
    requires k < |t| && e < |t[k].recs| && Partly(t, k, now, u, e, j) && k < |u| && j < |u[k].recs|
    ensures var recs := t[k].recs;
            var r := Sweep(recs[e], now);
            && Partly(t, k, now, Splice(u, k, j, r), e + 1, if r.Some? then j + 1 else j)
            && (SweepRecs(recs[..e + 1], now) + recs[e + 1..] == [] <==> r.None? && |u[k].recs| == 1)
  {
    hide SweepRecs, Sweep, Splice;
    var recs := t[k].recs;
    SweepRecsMore(recs, e, now);
    SpliceAmid(t, k, SweepRecs(recs[..e], now), recs[e..], u, Sweep(recs[e], now));
    assert recs[e..][1..] == recs[e + 1..];
  }

  /** A splice in a group that consists of `done`, the record concerned, and more. */
  lemma SpliceAmid(t: seq<Group>, k: nat, done: seq<Record>, rest: seq<Record>, u: seq<Group>, q: Option<Record>)
    requires k < |t| && rest != [] && u == t[..k] + [t[k].(recs := done + rest)] + t[k + 1..]
    ensures Splice(u, k, |done|, q) == t[..k] + Kept(t[k], done + OptSeq(q) + rest[1..]) + t[k + 1..]
    ensures done + OptSeq(q) + rest[1..] == [] <==> q.None? && |u[k].recs| == 1
  {
    assert u[..k] == t[..k] && u[k + 1..] == t[k + 1..] && u[k].recs == done + rest;
    assert (done + rest)[..|done|] == done && (done + rest)[|done| + 1..] == rest[1..];
  }

  lemma PartlyDone(t: seq<Group>, k: nat, now: int, u: seq<Group>, e: nat, j: nat, gone: bool)
    requires k < |t| && e <= |t[k].recs| && Partly(t, k, now, u, e, j)
    requires gone <==> SweepRecs(t[k].recs[..e], now) + t[k].recs[e..] == []
    requires !gone ==> k < |u| && j >= |u[k].recs|
    ensures u == t[..k] + Kept(t[k], SweepRecs(t[k].recs, now)) + t[k + 1..]
    ensures gone <==> SweepRecs(t[k].recs, now) == []
  {
    var recs := t[k].recs;
    assert |recs[e..]| == |recs| - e;
    assert recs[..e] == recs && recs[e..] == [];
    assert SweepRecs(recs, now) + [] == SweepRecs(recs, now);
  }

  /** What happens to the table when the records of one report packet are applied; `heap` is
      what malloc returns each time. */
  function Arrivals(i: int, records: seq<(Addr, RecType, seq<Source>)>, now: int, heap: int -> int): (run: seq<Happening>)
    ensures |run| == |records|
    ensures forall n :: 0 <= n < |records| ==>
              run[n] == Reported(records[n].0, i, records[n].1, records[n].2, now, heap(n))
  {
    seq(|records|, n requires 0 <= n < |records| => Reported(records[n].0, i, records[n].1, records[n].2, now, heap(n)))
  }

  /** The record that a report finds, or the new one it is given. */
  function RecordFor(t: seq<Group>, g: Addr, i: int, heap: int): Record {
    if Lookup(t, g, i).Some? then Lookup(t, g, i).value else Record(i, Include, [], 0, [], heap)
  }

  /** The queries are those of the standard for the record the report finds. */
  ghost predicate Answers(q: seq<Query>, t: seq<Group>, g: Addr, i: int, ty: RecType, b: seq<Source>, heap: int) {
    var (sources, group) := RfcQueries(Abs(RecordFor(t, g, i, heap)), ty, Addrs(b));
    && (forall p: Addr :: AskSource(p) in q <==> p in sources)
    && (AskGroup in q <==> group)
  }

  lemma EmitsAnswers(t: seq<Group>, g: Addr, i: int, ty: RecType, b: seq<Source>, now: int, heap: int)
    ensures Answers(Emits(t, Reported(g, i, ty, b, now, heap)).queries, t, g, i, ty, b, heap)
  {
    QueriesAreRfc(RecordFor(t, g, i, heap), ty, b);
  }

  /** Each report of the run is answered. */
  ghost predicate AllAnswered(queries: seq<seq<Query>>, t: seq<Group>, run: seq<Happening>) {
    && |queries| == |run|
    && forall n :: 0 <= n < |run| && run[n].Reported? ==>
         var e := run[n]; Answers(queries[n], From(t, run[..n]), e.g, e.i, e.t, e.sources, e.heap)
  }

  lemma AnsweredSnoc(queries: seq<seq<Query>>, q: seq<Query>, t: seq<Group>, run: seq<Happening>, e: Happening)
    requires AllAnswered(queries, t, run) && e.Reported?
    requires Answers(q, From(t, run), e.g, e.i, e.t, e.sources, e.heap)
    ensures AllAnswered(queries + [q], t, run + [e])
  {
    hide Answers, From;
    var run' := run + [e];
    assert run'[..|run|] == run;
    assert forall n :: 0 <= n < |run| ==> run'[..n] == run[..n] && run'[n] == run[n];
  }

  lemma NothingArrived(t: seq<Group>, i: int, now: int, heap: int -> int)
    ensures Arrivals(i, [], now, heap) == [] && From(t, []) == t && AllAnswered([], t, [])
  {
  }

  /** One more record of a report. */
  lemma ArrivalsSnoc(t: seq<Group>, i: int, records: seq<(Addr, RecType, seq<Source>)>, r: (Addr, RecType, seq<Source>), now: int, heap: int -> int)
    ensures var run, e := Arrivals(i, records, now, heap), Reported(r.0, i, r.1, r.2, now, heap(|records|));
            && Arrivals(i, records + [r], now, heap) == run + [e]
            && From(t, run + [e]) == TableStep(From(t, run), e)
  {
    var run, e := Arrivals(i, records, now, heap), Reported(r.0, i, r.1, r.2, now, heap(|records|));
    assert Init(run + [e]) == run && Last(run + [e]) == e;
  }

  lemma FitsAllBut(t: seq<Group>, up: map<int, seq<Call>>, i: int)
    requires Fits(t, up)
    ensures FitsBut(t, up, i)
  {
  }

  /** A report for interface `i` leaves the other interfaces alone. */
  lemma ReportFits(t: seq<Group>, g: Addr, i: int, ty: RecType, b: seq<Source>, now: int, heap: int, up: map<int, seq<Call>>)
    requires FitsBut(t, up, i)
    ensures FitsBut(Report(t, g, i, ty, b, now, heap), up, i)
  {
    var u := Report(t, g, i, ty, b, now, heap);
    forall h: Addr, j | j != i ensures Lookup(u, h, j) == Lookup(t, h, j) {
      ReportMeaning(t, g, i, ty, b, now, heap, h, j);
    }
    hide Report, Lookup, Wants;
    forall j | j != i ensures FitsOn(u, up, j) {
      assert FitsOn(t, up, j);
      assert forall h: Addr, s: Addr :: Demands(u, h, j, s) <==> Demands(t, h, j, s);
    }
  }

  lemma Peel(t: seq<Group>, k: nat)
    requires 0 < k <= |t|
    ensures t == [t[0]] + t[1..]
    ensures forall x: seq<Group>, y: seq<Group> :: [t[0]] + (t[1..][..k - 1] + x + y) == t[..k] + x + y
    ensures k < |t| ==> t[1..][k - 1] == t[k] && t[1..][k..] == t[k + 1..]
  {
    assert [t[0]] + t[1..][..k - 1] == t[..k];
  }

  lemma {:induction false} ReportAt(t: seq<Group>, k: nat, g: Addr, i: int, ty: RecType, b: seq<Source>, now: int, heap: int)
    requires GroupPos(t, g, k)
    ensures Report(t, g, i, ty, b, now, heap) ==
            t[..k] + [Group(g, ReportRecs(RecsAt(t, k), i, ty, b, now, heap), now)] +
            if k < |t| then t[k + 1..] else []
  {
    if k > 0 {
      ReportAt(t[1..], k - 1, g, i, ty, b, now, heap);
      Peel(t, k);
    }
  }

  lemma {:induction false} ReportRecsAt(recs: seq<Record>, j: nat, i: int, ty: RecType, b: seq<Source>, now: int, heap: int)
    requires RecPos(recs, i, j)
    ensures ReportRecs(recs, i, ty, b, now, heap) ==
            (if j < |recs| then recs else recs + [Fresh(i, heap)])[j := Handle(if j < |recs| then recs[j] else Fresh(i, heap), ty, b, now)]
  {
    hide Handle;
    if j > 0 {
      ReportRecsAt(recs[1..], j - 1, i, ty, b, now, heap);
      assert recs == [recs[0]] + recs[1..];
    }
  }

  /** The records of group `k`, none if there is no such group. */
  function RecsAt(t: seq<Group>, k: nat): seq<Record> {
    if k < |t| then t[k].recs else []
  }

  /** Group `k` is the first one for `g`, or there is none and `k` is past the end. */
  ghost predicate GroupPos(t: seq<Group>, g: Addr, k: nat) {
    k <= |t| && (forall m :: 0 <= m < k ==> t[m].mca != g) && (k < |t| ==> t[k].mca == g)
  }

  ghost predicate RecPos(recs: seq<Record>, i: int, j: nat) {
    j <= |recs| && (forall m :: 0 <= m < j ==> recs[m].ifindex != i) && (j < |recs| ==> recs[j].ifindex == i)
  }

  /** What `groupint_get` makes of a table: record `j` of group `k` is the one of `g` and `i`,
      new if there was none; everything else is as before. */
  ghost predicate Got(t: seq<Group>, g: Addr, i: int, now: int, heap: int, k: nat, j: nat, u: seq<Group>) {
    && GroupPos(t, g, k) && RecPos(RecsAt(t, k), i, j)
    && u == t[..k] + [Group(g, if j < |RecsAt(t, k)| then RecsAt(t, k) else RecsAt(t, k) + [Fresh(i, heap)], now)]
            + if k < |t| then t[k + 1..] else []
  }

  lemma {:induction false} LookupOf(t: seq<Group>, g: Addr, i: int, k: nat)
    requires GroupPos(t, g, k)
    ensures Lookup(t, g, i) == if k < |t| then FindRec(t[k].recs, i) else None
  {
    if k > 0 {
      LookupOf(t[1..], g, i, k - 1);
    }
  }

  lemma {:induction false} FindRecOf(recs: seq<Record>, i: int, j: nat)
    requires RecPos(recs, i, j)
    ensures FindRec(recs, i) == if j < |recs| then Some(recs[j]) else None
  {
    if j > 0 {
      FindRecOf(recs[1..], i, j - 1);
    }
  }

  /** `groupint_get` and the transition together are the step of the table. */
  lemma GotThenHandled(t: seq<Group>, g: Addr, i: int, ty: RecType, b: seq<Source>, now: int, heap: int, k: nat, j: nat, u: seq<Group>)
    requires Got(t, g, i, now, heap, k, j, u)
    ensures k < |u| && j < |u[k].recs|
    ensures u[k].recs[j] == if Lookup(t, g, i).Some? then Lookup(t, g, i).value else Fresh(i, heap)
    ensures Splice(u, k, j, Some(Handle(u[k].recs[j], ty, b, now))) == Report(t, g, i, ty, b, now, heap)
  {
    hide Lookup, FindRec, Report, ReportRecs, Handle, Splice;
    var recs := RecsAt(t, k);
    LookupOf(t, g, i, k);
    FindRecOf(recs, i, j);
    ReportAt(t, k, g, i, ty, b, now, heap);
    ReportRecsAt(recs, j, i, ty, b, now, heap);
    var r := Handle(u[k].recs[j], ty, b, now);
    SpliceOne(u, k, j, r);
    Replaced(t[..k], u[k], if k < |t| then t[k + 1..] else [], u[k].(recs := u[k].recs[j := r]));
  }

  lemma Replaced(a: seq<Group>, x: Group, b: seq<Group>, y: Group)
    ensures (a + [x] + b)[|a| := y] == a + [y] + b
  {
  }

  lemma {:induction false} ForwardAt(t: seq<Group>, k: nat, from: int, s: Addr, g: Addr, now: int)
    requires GroupPos(t, g, k)
    ensures k == |t| ==> Forward(t, from, s, g, now) == (t, None)
    ensures k < |t| ==> Forward(t, from, s, g, now) == Outcome(t, k, from, s, now)
  {
    if k > 0 {
      ForwardAt(t[1..], k - 1, from, s, g, now);
      Peel(t, k);
    } else if t != [] {
      var left := Kept(t[0], ForwardRecs(t[0].recs, from, s, now).0);
      assert t[..0] + left == left;
    }
  }

  /** Where the record under the cursor sits, and what a splice there does. */
  lemma MidwaySplice(t: seq<Group>, k: nat, u: seq<Group>, e: nat, p: seq<Record>, from: int, s: Addr, now: int, q: Option<Record>)
    requires Midway(t, k, u, e, p, from, s, now) && e < |t[k].recs|
    ensures k < |u| && |p| < |u[k].recs| && u[k].recs[|p|] == t[k].recs[e]
    ensures Splice(u, k, |p|, q) == t[..k] + Kept(t[k], p + OptSeq(q) + t[k].recs[e + 1..]) + t[k + 1..]
    ensures p + OptSeq(q) + t[k].recs[e + 1..] == [] <==> q.None? && |u[k].recs| == 1
  {
    hide ForwardRecs, Splice;
    var recs := t[k].recs;
    assert u[k].recs == p + recs[e..] && recs[e..][1..] == recs[e + 1..];
    SpliceAmid(t, k, p, recs[e..], u, q);
  }

  /** One more record of the forwarding loop, branch by branch. */
  lemma ForwardStep(recs: seq<Record>, e: nat, p: seq<Record>, from: int, s: Addr, now: int)
    requires e < |recs|
    ensures var r, whole := recs[e], Before(p, ForwardRecs(recs[e..], from, s, now));
            var rest := ForwardRecs(recs[e + 1..], from, s, now);
            if r.ifindex == from || (r.mode == Include && s !in Addrs(r.includes)) then whole == Before(p + [r], rest)
            else if r.mode == Include then
              var left := ExpireOne(r, s, now);
              whole == (p + OptSeq(left) + recs[e + 1..], if left.Some? then Some(r.ifindex) else None)
            else if r.filterTimer <= now then whole == Before(p + OptSeq(SwitchToInclude(r)), rest)
            else if s in Addrs(r.excludes) then whole == Before(p + [r], rest)
            else whole == (p + recs[e..], Some(r.ifindex))
  {
    var r, rest := recs[e], ForwardRecs(recs[e + 1..], from, s, now);
    assert recs[e..][0] == r && recs[e..][1..] == recs[e + 1..];
    assert p + ([r] + rest.0) == p + [r] + rest.0;
    if r.mode == Exclude {
      assert p + (OptSeq(SwitchToInclude(r)) + rest.0) == p + OptSeq(SwitchToInclude(r)) + rest.0;
    } else if s in Addrs(r.includes) {
      assert p + (OptSeq(ExpireOne(r, s, now)) + recs[e + 1..]) == p + OptSeq(ExpireOne(r, s, now)) + recs[e + 1..];
    }
  }

  /** The table and the packet's fate once the forwarder is done with group `k`. */
  function Outcome(t: seq<Group>, k: nat, from: int, s: Addr, now: int): (seq<Group>, Option<int>)
    requires k < |t|
  {
    var (recs, sent) := ForwardRecs(t[k].recs, from, s, now);
    (t[..k] + Kept(t[k], recs) + t[k + 1..], sent)
  }

  /** The forwarder has passed `e` records of group `k`, of which `p` are left. */
  ghost predicate Midway(t: seq<Group>, k: nat, u: seq<Group>, e: nat, p: seq<Record>, from: int, s: Addr, now: int) {
    && k < |t| && e <= |t[k].recs| && e < |p| + |t[k].recs|
    && u == t[..k] + [t[k].(recs := p + t[k].recs[e..])] + t[k + 1..]
    && ForwardRecs(t[k].recs, from, s, now) == Before(p, ForwardRecs(t[k].recs[e..], from, s, now))
  }

  lemma MidwayStart(t: seq<Group>, k: nat, from: int, s: Addr, now: int)
    requires k < |t| && t[k].recs != []
    ensures Midway(t, k, t, 0, [], from, s, now)
  {
    var recs := t[k].recs;
    assert recs[0..] == recs && [] + recs == recs;
    assert [] + ForwardRecs(recs, from, s, now).0 == ForwardRecs(recs, from, s, now).0;
  }

  lemma MidwayAt(t: seq<Group>, k: nat, u: seq<Group>, e: nat, p: seq<Record>, from: int, s: Addr, now: int)
    requires Midway(t, k, u, e, p, from, s, now)
    ensures k < |u| && k < |t| && e <= |t[k].recs| && |u[k].recs| == |p| + |t[k].recs| - e
  {
  }

  lemma MidwayEnd(t: seq<Group>, k: nat, u: seq<Group>, e: nat, p: seq<Record>, from: int, s: Addr, now: int)
    requires Midway(t, k, u, e, p, from, s, now) && e >= |t[k].recs|
    ensures (u, None) == Outcome(t, k, from, s, now)
  {
    assert t[k].recs[e..] == [] && p + [] == p;
  }

  predicate Passes(r: Record, from: int, s: Addr, now: int) {
    || r.ifindex == from || (r.mode == Include && s !in Addrs(r.includes))
    || (r.mode == Exclude && r.filterTimer > now && s in Addrs(r.excludes))
  }

  /** The branch that goes on with the next record. */
  lemma VisitPass(t: seq<Group>, k: nat, u: seq<Group>, e: nat, p: seq<Record>, from: int, s: Addr, now: int)
    requires Midway(t, k, u, e, p, from, s, now) && e < |t[k].recs| && Passes(t[k].recs[e], from, s, now)
    ensures Midway(t, k, u, e + 1, p + [t[k].recs[e]], from, s, now)
  {
    ForwardStep(t[k].recs, e, p, from, s, now);
    hide ForwardRecs, Addrs;
    assert p + t[k].recs[e..] == p + [t[k].recs[e]] + t[k].recs[e + 1..];
  }

  /** The branch that expires the packet's source and sends unless the record goes. */
  lemma VisitInclude(t: seq<Group>, k: nat, u: seq<Group>, e: nat, p: seq<Record>, from: int, s: Addr, now: int)
    requires Midway(t, k, u, e, p, from, s, now) && e < |t[k].recs|
    requires var r := t[k].recs[e]; r.ifindex != from && r.mode == Include && s in Addrs(r.includes)
    ensures k < |u| && |p| < |u[k].recs|
    ensures var left := ExpireOne(t[k].recs[e], s, now);
            (Splice(u, k, |p|, left), if left.Some? then Some(t[k].recs[e].ifindex) else None) == Outcome(t, k, from, s, now)
  {
    MidwaySplice(t, k, u, e, p, from, s, now, ExpireOne(t[k].recs[e], s, now));
    ForwardStep(t[k].recs, e, p, from, s, now);
    hide ForwardRecs, Splice, ExpireOne;
  }

  /** The branch that switches an EXCLUDE record whose filter timer has run out. */
  lemma VisitExclude(t: seq<Group>, k: nat, u: seq<Group>, e: nat, p: seq<Record>, from: int, s: Addr, now: int)
    requires Midway(t, k, u, e, p, from, s, now) && e < |t[k].recs|
    requires var r := t[k].recs[e]; r.ifindex != from && r.mode == Exclude && r.filterTimer <= now
    ensures k < |u| && |p| < |u[k].recs|
    ensures var left := SwitchToInclude(t[k].recs[e]);
            var u' := Splice(u, k, |p|, left);
            if left.None? && |u[k].recs| == 1 then (u', None) == Outcome(t, k, from, s, now)
            else Midway(t, k, u', e + 1, p + OptSeq(left), from, s, now)
  {
    var left := SwitchToInclude(t[k].recs[e]);
    MidwaySplice(t, k, u, e, p, from, s, now, left);
    ForwardStep(t[k].recs, e, p, from, s, now);
    if left.None? && |u[k].recs| == 1 {
      assert t[k].recs[e + 1..] == [];
      assert ForwardRecs(t[k].recs[e + 1..], from, s, now) == ([], None);
    }
    hide ForwardRecs, Splice, SwitchToInclude;
  }

  /** The branch that sends. */
  lemma VisitSend(t: seq<Group>, k: nat, u: seq<Group>, e: nat, p: seq<Record>, from: int, s: Addr, now: int)
    requires Midway(t, k, u, e, p, from, s, now) && e < |t[k].recs|
    requires var r := t[k].recs[e]; r.ifindex != from && r.mode == Exclude && r.filterTimer > now && s !in Addrs(r.excludes)
    ensures (u, Some(t[k].recs[e].ifindex)) == Outcome(t, k, from, s, now)
  {
    ForwardStep(t[k].recs, e, p, from, s, now);
    hide ForwardRecs;
  }

  /** Replacing a record is an update in place. */
  lemma SpliceOne(t: seq<Group>, k: nat, j: nat, r: Record)
    requires k < |t| && j < |t[k].recs|
    ensures Splice(t, k, j, Some(r)) == t[k := t[k].(recs := t[k].recs[j := r])]
  {
    assert SpliceRecs(t[k].recs, j, Some(r)) == t[k].recs[j := r];
  }

  /** Removing a record leaves the group without it, or leaves the group out. */
  lemma SpliceNone(t: seq<Group>, k: nat, j: nat)
    requires k < |t| && j < |t[k].recs|
    ensures var left := Without(t[k].recs, j);
            Splice(t, k, j, None) == if left == [] then Without(t, k) else t[k := t[k].(recs := left)]
  {
    assert SpliceRecs(t[k].recs, j, None) == Without(t[k].recs, j);
    assert t[..k] + t[k + 1..] == Without(t, k);
  }

  /** One more record of the upstream loop. */
  lemma CallsOfMore(g: Addr, recs: seq<Record>, j: nat, i: int)
    requires j < |recs|
    ensures CallsOf(g, recs[..j + 1], i) ==
            CallsOf(g, recs[..j], i) + if recs[j].ifindex == i then CallsFor(g, recs[j]) else []
  {
    assert recs[..j + 1] == recs[..j] + [recs[j]] && [recs[j]][1..] == [];
    CallsOfAppend(g, recs[..j], [recs[j]], i);
  }

  /** One more group of the upstream loop. */
  lemma CallsMore(t: seq<Group>, k: nat, i: int)
    requires k < |t|
    ensures Calls(t[..k + 1], i) == Calls(t[..k], i) + CallsOf(t[k].mca, t[k].recs, i)
  {
    assert t[..k + 1] == t[..k] + [t[k]] && [t[k]][1..] == [];
    CallsAppend(t[..k], [t[k]], i);
  }

  // ---------------------------------------------------------------- one record at a time

  /** Of the records of interface `i`, the step from `u` to `v` changes only some that `u` still
      has as `t` had them. */
  ghost predicate Between(t: seq<Group>, u: seq<Group>, v: seq<Group>, i: int) {
    forall g: Addr :: Lookup(v, g, i) == Lookup(u, g, i) || Lookup(u, g, i) == Lookup(t, g, i)
  }

  lemma SpliceBetween(t: seq<Group>, k: nat, e: nat, u: seq<Group>, j: nat, r: Option<Record>, i: int)
    requires Keyed(t) && k < |t| && e < |t[k].recs| && Keyed(u) && k < |u| && j < |u[k].recs|
    requires u[k].mca == t[k].mca && u[k].recs[j] == t[k].recs[e]
    requires r.Some? ==> r.value.ifindex == u[k].recs[j].ifindex
    ensures Between(t, u, Splice(u, k, j, r), i)
  {
    LookupAt(t, k, e);
    LookupAt(u, k, j);
    forall g: Addr ensures Lookup(Splice(u, k, j, r), g, i) == Lookup(u, g, i) || Lookup(u, g, i) == Lookup(t, g, i) {
      SpliceMeaning(u, k, j, r, g, i);
    }
  }

  /** What a removal leaves was there before. */
  lemma RemovalBetween(u: seq<Group>, k: nat, j: nat, i: int)
    requires Keyed(u) && k < |u| && j < |u[k].recs|
    ensures var v := Splice(u, k, j, None);
            Keyed(v) && forall g: Addr :: Lookup(v, g, i).Some? ==> Lookup(v, g, i) == Lookup(u, g, i)
  {
    SpliceMeaning(u, k, j, None, 0, i);
    forall g: Addr | Lookup(Splice(u, k, j, None), g, i).Some?
      ensures Lookup(Splice(u, k, j, None), g, i) == Lookup(u, g, i)
    {
      SpliceMeaning(u, k, j, None, g, i);
    }
  }

  lemma {:induction false} KeyedPos(t: seq<Group>, k: nat)
    requires Keyed(t) && k < |t|
    ensures GroupPos(t, t[k].mca, k)
  {
  }

  lemma {:induction false} GroupSwap(u: seq<Group>, k: nat, recs: seq<Record>, g: Addr, i: int)
    requires k < |u| && g != u[k].mca
    ensures Lookup(u[..k] + Kept(u[k], recs) + u[k + 1..], g, i) == Lookup(u, g, i)
  {
    var v := u[..k] + Kept(u[k], recs) + u[k + 1..];
    if k == 0 {
      if recs == [] {
        assert v == u[1..];
      } else {
        assert v[1..] == u[1..];
      }
    } else {
      GroupSwap(u[1..], k - 1, recs, g, i);
      assert u[1..][..k - 1] == u[1..k] && u[1..][k - 1] == u[k] && u[1..][k..] == u[k + 1..];
      assert v[1..] == u[1..k] + Kept(u[k], recs) + u[k + 1..];
    }
  }

  /** The sweep of group `d`. */
  lemma SweepBetween(t: seq<Group>, d: nat, u: seq<Group>, now: int, i: int)
    requires Keyed(t) && d < |t| && Keyed(u) && u == SweepTable(t[..d], now) + t[d..]
    ensures Between(t, u, SweepTable(t[..d + 1], now) + t[d + 1..], i)
  {
    var k, recs := |SweepTable(t[..d], now)|, SweepRecs(t[d].recs, now);
    SweepOneMore(t, d, u, now);
    KeyedPos(t, d);
    KeyedPos(u, k);
    LookupOf(t, t[d].mca, i, d);
    LookupOf(u, t[d].mca, i, k);
    hide SweepTable, SweepRecs, Lookup, Keyed;
    var v := u[..k] + Kept(u[k], recs) + u[k + 1..];
    forall g: Addr ensures Lookup(v, g, i) == Lookup(u, g, i) || Lookup(u, g, i) == Lookup(t, g, i) {
      if g != t[d].mca {
        GroupSwap(u, k, recs, g, i);
      }
    }
  }

  lemma PartlyBetween(t: seq<Group>, k: nat, now: int, u: seq<Group>, e: nat, j: nat, i: int)
    requires Keyed(t) && Keyed(u) && k < |t| && e < |t[k].recs| && Partly(t, k, now, u, e, j)
    requires k < |u| && j < |u[k].recs|
    ensures Between(t, u, Splice(u, k, j, Sweep(t[k].recs[e], now)), i)
  {
    PartlyAt(t, k, now, u, e, j);
    assert u[k].mca == t[k].mca;
    hide Partly, SweepRecs;
    SweepKeepsIfindex(t[k].recs[e], now);
    SpliceBetween(t, k, e, u, j, Sweep(t[k].recs[e], now), i);
  }

  function ExpireOpt(r: Record, s: Addr, now: int): (q: Option<Record>)
    ensures q.Some? ==> q.value.ifindex == r.ifindex
  {
    if s in Addrs(r.includes) then ExpireOne(r, s, now) else Some(r)
  }

  lemma MidwayBetween(t: seq<Group>, k: nat, u: seq<Group>, e: nat, p: seq<Record>, from: int, s: Addr, now: int, q: Option<Record>, i: int)
    requires Keyed(t) && Keyed(u) && Midway(t, k, u, e, p, from, s, now) && e < |t[k].recs|
    requires q.Some? ==> q.value.ifindex == t[k].recs[e].ifindex
    ensures k < |u| && |p| < |u[k].recs| && Between(t, u, Splice(u, k, |p|, q), i)
  {
    MidwaySplice(t, k, u, e, p, from, s, now, q);
    assert u[k].mca == t[k].mca;
    hide Midway, Splice;
    SpliceBetween(t, k, e, u, |p|, q, i);
  }

  /** When the upstream side has just been renewed, a group whose record is empty is not joined. */
  lemma EmptyNotJoined(t: seq<Group>, k: nat, j: nat, up: map<int, seq<Call>>)
    requires Keyed(t) && k < |t| && j < |t[k].recs| && t[k].recs[j].mode == Include && NoIncludes(t[k].recs[j])
    requires JoinsMatter(t, up, t[k].recs[j].ifindex)
    ensures !JoinedOn(up, t[k].mca, t[k].recs[j].ifindex)
  {
    LookupAt(t, k, j);
  }

  lemma CallsAmid(a: seq<Group>, mid: seq<Group>, b: seq<Group>, i: int)
    ensures Calls(a + mid + b, i) == Calls(a, i) + Calls(mid, i) + Calls(b, i)
  {
    CallsAppend(a + mid, b, i);
    CallsAppend(a, mid, i);
  }

  lemma CallsOfWithout(g: Addr, recs: seq<Record>, j: nat, i: int)
    requires j < |recs| && CallsFor(g, recs[j]) == []
    ensures CallsOf(g, SpliceRecs(recs, j, None), i) == CallsOf(g, recs, i)
  {
    CallsOfMore(g, recs, j, i);
    CallsOfAppend(g, recs[..j + 1], recs[j + 1..], i);
    CallsOfAppend(g, recs[..j], recs[j + 1..], i);
    hide CallsFor, CallsOf;
    assert recs == recs[..j + 1] + recs[j + 1..];
    assert SpliceRecs(recs, j, None) == recs[..j] + recs[j + 1..];
  }

  /** An empty record makes no upstream calls. */
  lemma CallsWithout(t: seq<Group>, k: nat, j: nat, i: int)
    requires k < |t| && j < |t[k].recs| && t[k].recs[j].mode == Include && NoIncludes(t[k].recs[j])
    ensures Calls(Splice(t, k, j, None), i) == Calls(t, i)
  {
    CallsOfWithout(t[k].mca, t[k].recs, j, i);
    hide CallsFor, SpliceRecs;
    CallsOfKept(t[k], SpliceRecs(t[k].recs, j, None), i);
    CallsOfKept(t[k], t[k].recs, i);
    hide CallsOf;
    CallsAmid(t[..k], Kept(t[k], SpliceRecs(t[k].recs, j, None)), t[k + 1..], i);
    CallsAmid(t[..k], Kept(t[k], t[k].recs), t[k + 1..], i);
    assert Kept(t[k], t[k].recs) == [t[k]];
    assert t == t[..k] + [t[k]] + t[k + 1..];
  }

  lemma CallsOfKept(a: Group, recs: seq<Record>, i: int)
    ensures Calls(Kept(a, recs), i) == CallsOf(a.mca, recs, i)
  {
    if recs != [] {
      assert Kept(a, recs)[1..] == [];
    }
  }
}
