/** src/mship_db.c: the membership database that merges all subscriptions to a group into one
    record, as section 3.1 of RFC 4605 asks for. */
module Mship {
  import opened Sources
  import opened Mld2

  /** `struct mrec`. */
  datatype MRec = MRec(mca: Addr, mode: Mode, sources: seq<Source>)

  datatype Sub = Sub(mca: Addr, mode: Mode, sources: seq<Source>)

  // ---------------------------------------------------------------- the merge

  /** `mode` 0, here None, stands for any mode. */
  predicate Matches(r: MRec, g: Addr, m: Option<Mode>) {
    r.mca == g && (m.None? || r.mode == m.value)
  }

  /** The position of the first record for `g` in mode `m`: `mrec_find`. */
  function FindMRec(db: seq<MRec>, g: Addr, m: Option<Mode>): (k: nat)
    ensures k <= |db| && (k < |db| ==> Matches(db[k], g, m))
    ensures forall n :: 0 <= n < k ==> !Matches(db[n], g, m)
  {
    if db == [] then 0
    else if Matches(db[0], g, m) then 0
    else
      var k := 1 + FindMRec(db[1..], g, m);
      assert forall n :: 1 <= n < k ==> db[n] == db[1..][n - 1];
      k
  }

  /** `mdb_subscribe`. */
  function Subscribe(db: seq<MRec>, s: Sub): seq<MRec> {
    var i, e := FindMRec(db, s.mca, Some(Include)), FindMRec(db, s.mca, Some(Exclude));
    if s.mode == Include then
      if e < |db| then db[e := db[e].(sources := Difference(db[e].sources, s.sources))]
      else if s.sources == [] then db
      else if i < |db| then db[i := db[i].(sources := Union(db[i].sources, s.sources))]
      else db + [MRec(s.mca, Include, Union([], s.sources))]
    else
      if i < |db| then
        // D6: the operands are swapped; what must be excluded is `sources` minus the list.
        db[i := db[i].(mode := Exclude, sources := Difference(db[i].sources, s.sources))]
      else if e < |db| then db[e := db[e].(sources := Intersect(db[e].sources, s.sources))]
      else db + [MRec(s.mca, Exclude, s.sources)]
  }

  // ---------------------------------------------------------------- its meaning

  ghost predicate OnePerGroup(db: seq<MRec>) {
    forall i, j :: 0 <= i < j < |db| ==> db[i].mca != db[j].mca
  }

  predicate Lets(m: Mode, l: seq<Source>, a: Addr) {
    if m == Include then a in Addrs(l) else a !in Addrs(l)
  }

  /** The database lets source `a` of group `g` in. */
  predicate Accepted(db: seq<MRec>, g: Addr, a: Addr) {
    exists k :: 0 <= k < |db| && db[k].mca == g && Lets(db[k].mode, db[k].sources, a)
  }

  predicate SubWants(s: Sub, g: Addr, a: Addr) {
    s.mca == g && Lets(s.mode, s.sources, a)
  }

  /** The step where the code can go wrong: an EXCLUDE subscription that meets an INCLUDE
      record naming other sources. */
  predicate Mergeable(db: seq<MRec>, s: Sub) {
    var i := FindMRec(db, s.mca, Some(Include));
    s.mode == Exclude && i < |db| ==> Addrs(db[i].sources) == Addrs(s.sources)
  }

  ghost predicate Merges(db: seq<MRec>, s: Sub) {
    forall a: Addr :: Accepted(Subscribe(db, s), s.mca, a) <==> Accepted(db, s.mca, a) || SubWants(s, s.mca, a)
  }

  lemma AcceptedAt(db: seq<MRec>, k: nat, a: Addr)
    requires OnePerGroup(db) && k < |db|
    ensures Accepted(db, db[k].mca, a) <==> Lets(db[k].mode, db[k].sources, a)
  {
  }

  /** Every merge keeps one record per group, and touches no other group. */
  lemma SubscribeFrame(db: seq<MRec>, s: Sub)
    requires OnePerGroup(db)
    ensures OnePerGroup(Subscribe(db, s))
    ensures forall g: Addr, a: Addr :: g != s.mca ==> (Accepted(Subscribe(db, s), g, a) <==> Accepted(db, g, a))
  {
    var db' := Subscribe(db, s);
    var i, e := FindMRec(db, s.mca, Some(Include)), FindMRec(db, s.mca, Some(Exclude));
    assert forall k :: 0 <= k < |db| ==> db'[k].mca == db[k].mca;
    assert forall k :: 0 <= k < |db| && db[k].mca != s.mca ==> db'[k] == db[k];
    if |db'| > |db| {
      forall k | 0 <= k < |db| ensures db[k].mca != s.mca {
        assert db[k].mode == Include || db[k].mode == Exclude;
      }
    }
    forall g: Addr, a: Addr | g != s.mca ensures Accepted(db', g, a) <==> Accepted(db, g, a) {
      if Accepted(db, g, a) {
        var k :| 0 <= k < |db| && db[k].mca == g && Lets(db[k].mode, db[k].sources, a);
        assert db'[k] == db[k];
      }
    }
  }

  /** One merge has the meaning of a union exactly when the guard holds. */
  lemma MergeExact(db: seq<MRec>, s: Sub)
    requires OnePerGroup(db)
    ensures Merges(db, s) <==> Mergeable(db, s)
  {
    SubscribeFrame(db, s);
    var db' := Subscribe(db, s);
    var i, e := FindMRec(db, s.mca, Some(Include)), FindMRec(db, s.mca, Some(Exclude));
    if i < |db| {
      MergeAt(db, s, i);
    } else if e < |db| {
      MergeAt(db, s, e);
    } else {
      UnionMeaning([], s.sources);
      forall k | 0 <= k < |db| ensures db[k].mca != s.mca {
        assert db[k].mode == Include || db[k].mode == Exclude;
      }
      forall a: Addr ensures Accepted(db', s.mca, a) <==> SubWants(s, s.mca, a) {
        if db' != db {
          AcceptedAt(db', |db|, a);
        }
      }
    }
  }

  lemma MergeAt(db: seq<MRec>, s: Sub, k: nat)
    requires OnePerGroup(db) && OnePerGroup(Subscribe(db, s)) && k < |db| && db[k].mca == s.mca
    ensures Merges(db, s) <==> Mergeable(db, s)
  {
    var db' := Subscribe(db, s);
    var i, e := FindMRec(db, s.mca, Some(Include)), FindMRec(db, s.mca, Some(Exclude));
    assert if db[k].mode == Include then i == k && e == |db| else e == k && i == |db|;
    var l := db[k].sources;
    SelectAddrs(l, Addrs(s.sources), false);
    SelectAddrs(l, Addrs(s.sources), true);
    UnionMeaning(l, s.sources);
    assert db'[k].mca == s.mca && |db'| == |db|;
    forall a: Addr
      ensures Accepted(db, s.mca, a) <==> Lets(db[k].mode, l, a)
      ensures Accepted(db', s.mca, a) <==> Lets(db'[k].mode, db'[k].sources, a)
    {
      AcceptedAt(db, k, a);
      AcceptedAt(db', k, a);
    }
    if s.mode == Exclude && db[k].mode == Include {
      if a: Addr :| a in Addrs(l) && a !in Addrs(s.sources) {
        assert !Accepted(db', s.mca, a) && Accepted(db, s.mca, a);
      } else if a: Addr :| a !in Addrs(l) && a in Addrs(s.sources) {
        assert Accepted(db', s.mca, a) && !Accepted(db, s.mca, a) && !SubWants(s, s.mca, a);
      } else {
        assert Addrs(l) == Addrs(s.sources);
      }
    }
  }

  /** What that step does instead: an EXCLUDE subscription that meets an INCLUDE record makes it
      let in everything but the sources that both the record and the subscription wanted. */
  lemma MergeDeviates(db: seq<MRec>, s: Sub, a: Addr)
    requires OnePerGroup(db) && s.mode == Exclude && FindMRec(db, s.mca, Some(Include)) < |db|
    ensures Accepted(Subscribe(db, s), s.mca, a) <==> !(Accepted(db, s.mca, a) && SubWants(s, s.mca, a))
  {
    SubscribeFrame(db, s);
    var i := FindMRec(db, s.mca, Some(Include));
    AcceptedAt(db, i, a);
    AcceptedAt(Subscribe(db, s), i, a);
    SelectAddrs(db[i].sources, Addrs(s.sources), false);
  }

  // ---------------------------------------------------------------- histories

  function Db(history: seq<Sub>): seq<MRec> {
    if history == [] then [] else Subscribe(Db(history[..|history| - 1]), history[|history| - 1])
  }

  predicate Wanted(history: seq<Sub>, g: Addr, a: Addr) {
    exists k :: 0 <= k < |history| && SubWants(history[k], g, a)
  }

  predicate AllMergeable(history: seq<Sub>) {
    history != [] ==>
      var n := |history| - 1;
      AllMergeable(history[..n]) && Mergeable(Db(history[..n]), history[n])
  }

  /** At this point the database lets in exactly what some subscription wants. */
  ghost predicate Faithful(history: seq<Sub>) {
    forall g: Addr, a: Addr :: Accepted(Db(history), g, a) <==> Wanted(history, g, a)
  }

  lemma {:induction false} HistoryUnique(history: seq<Sub>)
    ensures OnePerGroup(Db(history))
  {
    if history != [] {
      HistoryUnique(history[..|history| - 1]);
      SubscribeFrame(Db(history[..|history| - 1]), history[|history| - 1]);
    }
  }

  lemma WantedStep(history: seq<Sub>, g: Addr, a: Addr)
    requires history != []
    ensures var n := |history| - 1;
            Wanted(history, g, a) <==> Wanted(history[..n], g, a) || SubWants(history[n], g, a)
  {
    var n := |history| - 1;
    if Wanted(history[..n], g, a) {
      var k :| 0 <= k < n && SubWants(history[..n][k], g, a);
      assert SubWants(history[k], g, a);
    }
    if Wanted(history, g, a) && !SubWants(history[n], g, a) {
      var k :| 0 <= k < |history| && SubWants(history[k], g, a);
      assert SubWants(history[..n][k], g, a);
    }
  }

  lemma FaithfulStep(history: seq<Sub>)
    requires history != [] && Faithful(history[..|history| - 1])
    ensures Faithful(history) <==> Mergeable(Db(history[..|history| - 1]), history[|history| - 1])
  {
    var n := |history| - 1;
    var db, s := Db(history[..n]), history[n];
    HistoryUnique(history[..n]);
    SubscribeFrame(db, s);
    MergeExact(db, s);
    forall g: Addr, a: Addr ensures Wanted(history, g, a) <==> Accepted(db, g, a) || SubWants(s, g, a) {
      WantedStep(history, g, a);
    }
    if Faithful(history) {
      forall a: Addr ensures Accepted(Db(history), s.mca, a) <==> Accepted(db, s.mca, a) || SubWants(s, s.mca, a) {
      }
    }
  }

  /** Merge meaning: at every point of a history the database lets in exactly what some
      subscription so far wants, if and only if no EXCLUDE subscription meets an INCLUDE
      record with other sources. */
  lemma {:induction false} MergeMeaning(history: seq<Sub>)
    ensures (forall n :: 0 <= n <= |history| ==> Faithful(history[..n])) <==> AllMergeable(history)
  {
    if history == [] {
      assert Faithful(history[..0]);
    } else {
      var m := |history| - 1;
      var init := history[..m];
      MergeMeaning(init);
      assert forall n :: 0 <= n <= m ==> init[..n] == history[..n];
      assert history[..|history|] == history && init[..m] == init;
      if Faithful(init) {
        FaithfulStep(history);
      }
    }
  }

  /** So the order of subscriptions does not matter. */
  lemma OrderIndependent(h1: seq<Sub>, h2: seq<Sub>, g: Addr, a: Addr)
    requires AllMergeable(h1) && AllMergeable(h2)
    requires forall s :: s in h1 <==> s in h2
    ensures Accepted(Db(h1), g, a) <==> Accepted(Db(h2), g, a)
  {
    MergeMeaning(h1);
    MergeMeaning(h2);
    assert h1[..|h1|] == h1 && h2[..|h2|] == h2;
    SameWants(h1, h2, g, a);
    SameWants(h2, h1, g, a);
    assert Faithful(h1[..|h1|]) && Faithful(h2[..|h2|]);
  }

  lemma SameWants(h1: seq<Sub>, h2: seq<Sub>, g: Addr, a: Addr)
    requires forall s :: s in h1 ==> s in h2
    ensures Wanted(h1, g, a) ==> Wanted(h2, g, a)
  {
    if Wanted(h1, g, a) {
      var k :| 0 <= k < |h1| && SubWants(h1[k], g, a);
      assert h1[k] in h2;
      var n :| 0 <= n < |h2| && h2[n] == h1[k];
      assert SubWants(h2[n], g, a);
    }
  }

  /** D6 on the smallest history: after INCLUDE {x} and EXCLUDE {}, source x is kept out,
      although both subscriptions want it. */
  lemma MergeCanFail(g: Addr, x: Addr)
    ensures var history := [Sub(g, Include, [Source(x, 0)]), Sub(g, Exclude, [])];
            Wanted(history, g, x) && !Accepted(Db(history), g, x)
  {
    var first, second := Sub(g, Include, [Source(x, 0)]), Sub(g, Exclude, []);
    var history := [first, second];
    var one := [Source(x, 0)];
    assert one[0] in one;
    assert SubWants(history[0], g, x);
    assert history[..1] == [first] && [first][..0] == [];
    assert Db([first]) == [MRec(g, Include, Union([], one))];
    UnionMeaning([], one);
    SelectAddrs(Union([], one), {}, false);
    var no: seq<Source> := [];
    assert Addrs(no) == {};
    assert Db(history) == [MRec(g, Exclude, Difference(Union([], one), no))];
  }

  // ---------------------------------------------------------------- the database object

  class MembershipDb {
    var recs: seq<MRec>

    constructor ()
      ensures recs == []
    {
      recs := [];
    }

    /** `mrec_find`. */
    method Find(g: Addr, m: Option<Mode>) returns (k: nat)
      ensures k == FindMRec(recs, g, m)
    {
      k := 0;
      while k < |recs| && !Matches(recs[k], g, m)
        invariant k <= |recs| && FindMRec(recs, g, m) == k + FindMRec(recs[k..], g, m)
      {
        assert recs[k..][1..] == recs[k + 1..];
        k := k + 1;
      }
    }

    /** `mdb_subscribe`. */
    method Add(g: Addr, mode: Mode, sources: seq<Source>)
      modifies this
      ensures recs == Subscribe(old(recs), Sub(g, mode, sources))
    {
      if mode == Include {
        var k := Find(g, Some(Exclude));
        if k < |recs| {
          recs := recs[k := recs[k].(sources := Difference(recs[k].sources, sources))];
        } else {
          k := Find(g, Some(Include));
          if k == |recs| && |sources| > 0 {
            recs := recs + [MRec(g, mode, [])];
          }
          if |sources| > 0 {
            recs := recs[k := recs[k].(sources := Union(recs[k].sources, sources))];
          }
        }
      } else {
        var k := Find(g, Some(Include));
        if k < |recs| {
          recs := recs[k := recs[k].(mode := Exclude, sources := Difference(recs[k].sources, sources))];
        } else {
          k := Find(g, Some(Exclude));
          if k == |recs| {
            recs := recs + [MRec(g, mode, sources)];
          } else {
            recs := recs[k := recs[k].(sources := Intersect(recs[k].sources, sources))];
          }
        }
      }
    }
  }
}
