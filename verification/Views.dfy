/** The three readers of the group table: the kernel-route test `check_route`, the user-space
    forwarder, and the upstream requests of `handle_upstream_subscription`. */
module Views {
  import opened Sources
  import opened McastClient
  import opened Mld2
  import opened Lease
  import opened Lapse
  import opened Table

  // ---------------------------------------------------------------- check_route

  /** The inner loop of `check_route`; None when it runs to the end. */
  function CheckRecs(recs: seq<Record>, i: int, s: Addr, now: int): Option<bool> {
    if recs == [] then None
    else
      var r := recs[0];
      if r.ifindex != i then CheckRecs(recs[1..], i, s, now)
      else if r.mode == Include then
        if NoIncludes(r) then Some(false)
        else if s in Addrs(r.includes) then Some(true)
        else CheckRecs(recs[1..], i, s, now)
      else Some(r.filterTimer > now && s !in Addrs(r.excludes))
  }

  /** `check_route`: whether interface `i` wants group `g` from source `s`. */
  function CheckRoute(t: seq<Group>, i: int, s: Addr, g: Addr, now: int): bool {
    if t == [] then false
    else
      var verdict := if t[0].mca == g then CheckRecs(t[0].recs, i, s, now) else None;
      if verdict.Some? then verdict.value else CheckRoute(t[1..], i, s, g, now)
  }

  lemma {:induction false} CheckRecsMeaning(recs: seq<Record>, i: int, s: Addr, now: int)
    requires KeyedRecs(recs)
    ensures var r, v := FindRec(recs, i), CheckRecs(recs, i, s, now);
            (v == Some(true) <==> r.Some? && Accepts(r.value, s, now))
  {
    if recs != [] {
      KeyedRecsTail(recs);
      CheckRecsMeaning(recs[1..], i, s, now);
      FindRecSome(recs[1..], recs[0].ifindex);
    }
  }

  lemma {:induction false} NoGroupNoRoute(t: seq<Group>, i: int, s: Addr, g: Addr, now: int)
    requires !HasGroup(t, g)
    ensures !CheckRoute(t, i, s, g, now)
  {
    if t != [] {
      HasGroupCons(t, g);
      NoGroupNoRoute(t[1..], i, s, g, now);
    }
  }

  /** With unique keys, `check_route` is the verdict of the one record concerned. */
  lemma {:induction false} CheckRouteMeaning(t: seq<Group>, i: int, s: Addr, g: Addr, now: int)
    requires Keyed(t)
    ensures var r := Lookup(t, g, i);
            CheckRoute(t, i, s, g, now) <==> r.Some? && Accepts(r.value, s, now)
  {
    if t != [] {
      KeyedTail(t);
      CheckRecsMeaning(t[0].recs, i, s, now);
      CheckRouteMeaning(t[1..], i, s, g, now);
      NoGroupNoRoute(t[1..], i, s, t[0].mca, now);
      LookupNone(t[1..], t[0].mca, i);
    }
  }

  // ---------------------------------------------------------------- fast path and slow path

  /** Only the upstream and the downstream interface occur. */
  ghost predicate TwoInterfaces(t: seq<Group>, up: int, down: int) {
    up != down && forall k :: 0 <= k < |t| ==> TwoRecs(t[k].recs, up, down)
  }

  ghost predicate TwoRecs(recs: seq<Record>, up: int, down: int) {
    forall k :: 0 <= k < |recs| ==> recs[k].ifindex == up || recs[k].ifindex == down
  }

  /** The one source of an INCLUDE record, expired: the forwarder deletes the record instead
      of forwarding, while `check_route` does not look at source timers. */
  predicate SoleExpired(r: Record, now: int) {
    r.mode == Include && r.nulls == 0 && |r.includes| == 1 && r.includes[0].timer <= now
  }

  lemma SoleExpiredMeaning(r: Record, s: Addr, now: int)
    requires r.mode == Include && s in Addrs(r.includes)
    ensures ExpireOne(r, s, now).None? <==> SoleExpired(r, now)
  {
    var l := r.includes;
    if |l| == 1 {
      assert l[1..] == [];
    } else if l[0].addr == s {
      assert |RemoveFirst(l, s)| == |l| - 1;
    } else {
      assert |RemoveFirst(l, s)| >= 1;
    }
  }

  lemma {:induction false} ForwardRecsSent(recs: seq<Record>, up: int, down: int, s: Addr, now: int)
    requires KeyedRecs(recs) && up != down && TwoRecs(recs, up, down)
    ensures var r := FindRec(recs, down);
            ForwardRecs(recs, up, s, now).1 ==
            if r.Some? && Accepts(r.value, s, now) && !SoleExpired(r.value, now) then Some(down) else None
  {
    if recs != [] {
      KeyedRecsTail(recs);
      var r := recs[0];
      assert r.ifindex == up || r.ifindex == down;
      ForwardRecsSent(recs[1..], up, down, s, now);
      FindRecSome(recs[1..], r.ifindex);
      if r.mode == Include && s in Addrs(r.includes) {
        SoleExpiredMeaning(r, s, now);
      }
    }
  }

  /** Fast path against slow path: a packet from upstream is forwarded downstream exactly
      when `check_route` says so, unless its source is the last one of an INCLUDE record and
      has expired.  In particular the two agree whenever no include source has expired. */
  lemma {:induction false} FastPathIsSlowPath(t: seq<Group>, up: int, down: int, s: Addr, g: Addr, now: int)
    requires Keyed(t) && TwoInterfaces(t, up, down)
    ensures var r := Lookup(t, g, down);
            && (Forward(t, up, s, g, now).1 == Some(down)
                <==> CheckRoute(t, down, s, g, now) && r.Some? && !SoleExpired(r.value, now))
            && (Forward(t, up, s, g, now).1 != Some(down) ==> Forward(t, up, s, g, now).1 == None)
  {
    CheckRouteMeaning(t, down, s, g, now);
    if t != [] {
      KeyedTail(t);
      CheckRouteMeaning(t[1..], down, s, g, now);
      FastPathIsSlowPath(t[1..], up, down, s, g, now);
      ForwardRecsSent(t[0].recs, up, down, s, now);
    }
  }

  // ---------------------------------------------------------------- any number of interfaces

  /** The record ends the forwarder's loop: its interface is not the packet's, and it lets the
      source through. */
  predicate Takes(r: Record, from: int, s: Addr, now: int) {
    r.ifindex != from && Accepts(r, s, now)
  }

  /** The loop gets to record `m`. */
  ghost predicate Reaches(recs: seq<Record>, m: nat, from: int, s: Addr, now: int)
    requires m <= |recs|
  {
    forall j :: 0 <= j < m ==> !Takes(recs[j], from, s, now)
  }

  lemma ReachesCons(recs: seq<Record>, m: nat, from: int, s: Addr, now: int)
    requires 0 < m <= |recs|
    ensures Reaches(recs, m, from, s, now) <==>
            !Takes(recs[0], from, s, now) && Reaches(recs[1..], m - 1, from, s, now)
  {
    hide Takes;
    assert forall j :: 1 <= j < m ==> recs[j] == recs[1..][j - 1];
  }

  /** One round of the loop. */
  lemma ForwardRound(recs: seq<Record>, from: int, s: Addr, now: int)
    requires recs != []
    ensures var r := recs[0];
            var rest := ForwardRecs(recs[1..], from, s, now);
            var first := if r.ifindex == from then [r] else OptSeq(Touch(r, s, now));
            ForwardRecs(recs, from, s, now) ==
            if Takes(r, from, s, now)
            then (first + recs[1..], if SoleExpired(r, now) then None else Some(r.ifindex))
            else Before(first, rest)
  {
    var r := recs[0];
    if r.mode == Include && s in Addrs(r.includes) {
      SoleExpiredMeaning(r, s, now);
    }
    assert [r] + recs[1..] == recs;
  }

  /** The forwarder, record by record: a packet goes out on the interface of the first record
      that lets it through, unless that record's last source expires on this occasion; up to
      there every record but the one it came in on is touched, and no other. */
  lemma {:induction false} ForwardRecsExact(recs: seq<Record>, from: int, s: Addr, now: int, m: nat)
    requires KeyedRecs(recs) && m < |recs|
    ensures var (left, sent) := ForwardRecs(recs, from, s, now);
            var r, reached := recs[m], Reaches(recs, m, from, s, now);
            && FindRec(left, r.ifindex) == (if reached && r.ifindex != from then Touch(r, s, now) else Some(r))
            && (reached && Takes(r, from, s, now) ==> sent == if SoleExpired(r, now) then None else Some(r.ifindex))
            && (Reaches(recs, |recs|, from, s, now) ==> sent == None)
  {
    if m == 0 {
      ForwardHere(recs, from, s, now);
      if |recs| > 1 {
        KeyedRecsTail(recs);
        ForwardRecsExact(recs[1..], from, s, now, 0);
      }
      ForwardNone(recs, from, s, now);
    } else {
      KeyedRecsTail(recs);
      ForwardRecsExact(recs[1..], from, s, now, m - 1);
      ForwardThere(recs, from, s, now, m);
    }
  }

  /** The record the loop starts with. */
  lemma ForwardHere(recs: seq<Record>, from: int, s: Addr, now: int)
    requires KeyedRecs(recs) && recs != []
    ensures var (left, sent) := ForwardRecs(recs, from, s, now);
            var r := recs[0];
            && FindRec(left, r.ifindex) == (if r.ifindex != from then Touch(r, s, now) else Some(r))
            && (Takes(r, from, s, now) ==> sent == if SoleExpired(r, now) then None else Some(r.ifindex))
  {
    KeyedRecsTail(recs);
    ForwardRound(recs, from, s, now);
    var r, rest := recs[0], ForwardRecs(recs[1..], from, s, now).0;
    FindRecSome(recs[1..], r.ifindex);
    ForwardRecsMeaning(recs[1..], from, s, now, r.ifindex);
    TouchKeepsIfindex(r, s, now);
    hide ForwardRecs, KeyedRecs, Takes, Touch, SoleExpired, HasRec;
    var first := if r.ifindex == from then [r] else OptSeq(Touch(r, s, now));
    if first == [] {
      assert first + rest == rest && first + recs[1..] == recs[1..];
    }
  }

  /** No record takes the packet. */
  lemma ForwardNone(recs: seq<Record>, from: int, s: Addr, now: int)
    requires recs != []
    requires |recs| > 1 && Reaches(recs[1..], |recs| - 1, from, s, now) ==> ForwardRecs(recs[1..], from, s, now).1 == None
    ensures Reaches(recs, |recs|, from, s, now) ==> ForwardRecs(recs, from, s, now).1 == None
  {
    ForwardRound(recs, from, s, now);
    ReachesCons(recs, |recs|, from, s, now);
    assert |recs| == 1 ==> ForwardRecs(recs[1..], from, s, now) == ([], None);
    hide ForwardRecs, Takes, Reaches, Touch;
  }

  /** A later record. */
  lemma ForwardThere(recs: seq<Record>, from: int, s: Addr, now: int, m: nat)
    requires KeyedRecs(recs) && 0 < m < |recs|
    requires var (left, sent) := ForwardRecs(recs[1..], from, s, now);
             var r, reached := recs[m], Reaches(recs[1..], m - 1, from, s, now);
             && FindRec(left, r.ifindex) == (if reached && r.ifindex != from then Touch(r, s, now) else Some(r))
             && (reached && Takes(r, from, s, now) ==> sent == if SoleExpired(r, now) then None else Some(r.ifindex))
             && (Reaches(recs[1..], |recs| - 1, from, s, now) ==> sent == None)
    ensures var (left, sent) := ForwardRecs(recs, from, s, now);
            var r, reached := recs[m], Reaches(recs, m, from, s, now);
            && FindRec(left, r.ifindex) == (if reached && r.ifindex != from then Touch(r, s, now) else Some(r))
            && (reached && Takes(r, from, s, now) ==> sent == if SoleExpired(r, now) then None else Some(r.ifindex))
            && (Reaches(recs, |recs|, from, s, now) ==> sent == None)
  {
    KeyedRecsTail(recs);
    ForwardRound(recs, from, s, now);
    ReachesCons(recs, m, from, s, now);
    ReachesCons(recs, |recs|, from, s, now);
    var r, rest := recs[0], ForwardRecs(recs[1..], from, s, now).0;
    TouchKeepsIfindex(r, s, now);
    assert recs[m].ifindex != r.ifindex && recs[1..][m - 1] == recs[m];
    FindRecAt(recs[1..], m - 1);
    hide ForwardRecs, KeyedRecs, Takes, Reaches, Touch, SoleExpired, HasRec;
    var first := if r.ifindex == from then [r] else OptSeq(Touch(r, s, now));
    if first == [] {
      assert first + rest == rest && first + recs[1..] == recs[1..];
    } else {
      assert (first + rest)[1..] == rest && (first + recs[1..])[1..] == recs[1..];
    }
  }

  lemma {:induction false} FindRecAt(recs: seq<Record>, m: nat)
    requires KeyedRecs(recs) && m < |recs|
    ensures FindRec(recs, recs[m].ifindex) == Some(recs[m])
  {
    KeyedRecsTail(recs);
    if m > 0 {
      assert recs[m].ifindex != recs[0].ifindex && recs[1..][m - 1] == recs[m];
      FindRecAt(recs[1..], m - 1);
    }
  }

  /** The same in the table, for record `m` of the packet's group. */
  lemma {:induction false} ForwardExact(t: seq<Group>, k: nat, m: nat, from: int, s: Addr, now: int)
    requires Keyed(t) && k < |t| && m < |t[k].recs|
    ensures var g, recs := t[k].mca, t[k].recs;
            var (left, sent) := Forward(t, from, s, g, now);
            var r, reached := recs[m], Reaches(recs, m, from, s, now);
            && Lookup(left, g, r.ifindex) == (if reached && r.ifindex != from then Touch(r, s, now) else Some(r))
            && (reached && Takes(r, from, s, now) ==> sent == if SoleExpired(r, now) then None else Some(r.ifindex))
            && (Reaches(recs, |recs|, from, s, now) ==> sent == None)
  {
    KeyedTail(t);
    if k == 0 {
      var recs, i := t[0].recs, t[0].recs[m].ifindex;
      var left := ForwardRecs(recs, from, s, now).0;
      ForwardRecsExact(recs, from, s, now, m);
      LookupNone(t[1..], t[0].mca, i);
      hide ForwardRecs, Keyed, KeyedRecs, Takes, Reaches, Touch, SoleExpired, HasGroup;
      assert Forward(t, from, s, t[0].mca, now).0 == Kept(t[0], left) + t[1..];
      if left == [] {
        assert Kept(t[0], left) + t[1..] == t[1..];
      } else {
        assert (Kept(t[0], left) + t[1..])[1..] == t[1..];
      }
    } else {
      assert t[k].mca != t[0].mca && t[1..][k - 1] == t[k];
      ForwardExact(t[1..], k - 1, m, from, s, now);
      hide ForwardRecs, Keyed, KeyedRecs, Takes, Reaches, Touch, SoleExpired, HasGroup;
      var rest := Forward(t[1..], from, s, t[k].mca, now).0;
      assert ([t[0]] + rest)[1..] == rest;
    }
  }

  // ---------------------------------------------------------------- upstream requests

  /** The calls made on the fresh upstream socket.  `numsrc` entries are passed to the kernel;
      the ones that stand for NULL nodes are left zero. */
  datatype Call =
    | Join(g: Addr)
    | SetFilter(g: Addr, mode: Mode, slist: seq<Option<Addr>>)

  function CallsFor(g: Addr, r: Record): seq<Call> {
    var slist := if r.mode == Include then Slist(r.includes, r.nulls) else Slist(r.excludes, 0);
    if r.mode == Include && slist == [] then []
    else [Join(g)] + if slist == [] then [] else [SetFilter(g, r.mode, slist)]
  }

  function CallsOf(g: Addr, recs: seq<Record>, i: int): seq<Call> {
    if recs == [] then []
    else (if recs[0].ifindex == i then CallsFor(g, recs[0]) else []) + CallsOf(g, recs[1..], i)
  }

  /** `handle_upstream_subscription` for interface `i`. */
  function Calls(t: seq<Group>, i: int): seq<Call> {
    if t == [] then [] else CallsOf(t[0].mca, t[0].recs, i) + Calls(t[1..], i)
  }

  /** What a sequence of calls subscribes to: a joined group without filter is EXCLUDE of
      nothing, and the last filter decides. */
  function Allows(calls: seq<Call>, g: Addr, s: Addr): bool {
    calls != [] &&
    var rest, c := calls[..|calls| - 1], calls[|calls| - 1];
    if c == Join(g) then true
    else if c.SetFilter? && c.g == g then
      Joined(rest, g) && (if c.mode == Include then Some(s) in c.slist else Some(s) !in c.slist)
    else Allows(rest, g, s)
  }

  predicate Joined(calls: seq<Call>, g: Addr) {
    Join(g) in calls
  }

  function Joins(calls: seq<Call>, g: Addr): nat {
    if calls == [] then 0 else (if calls[0] == Join(g) then 1 else 0) + Joins(calls[1..], g)
  }

  /** A record lets a source in as far as mode and list go. */
  predicate Wants(r: Record, s: Addr) {
    if r.mode == Include then s in Addrs(r.includes) else s !in Addrs(r.excludes)
  }

  predicate About(calls: seq<Call>, g: Addr) {
    exists k :: 0 <= k < |calls| && calls[k].g == g
  }

  lemma {:induction false} AllowsAppend(a: seq<Call>, b: seq<Call>, g: Addr, s: Addr)
    ensures !About(b, g) ==> Allows(a + b, g, s) == Allows(a, g, s) && Joins(a + b, g) == Joins(a, g)
    ensures !About(a, g) ==> Allows(a + b, g, s) == Allows(b, g, s) && Joins(a + b, g) == Joins(b, g)
  {
    JoinsAppend(a, b, g);
    hide Joins;
    if b == [] {
      assert a + b == a;
      NothingAbout(a, g, s);
    } else {
      var init := b[..|b| - 1];
      assert (a + b)[..|a + b| - 1] == a + init;
      assert forall k :: 0 <= k < |init| ==> init[k] == b[k];
      assert b == init + [b[|b| - 1]];
      AllowsAppend(a, init, g, s);
      NothingAbout(b, g, s);
      NothingAbout(a, g, s);
    }
  }

  lemma {:induction false} NothingAbout(a: seq<Call>, g: Addr, s: Addr)
    ensures !About(a, g) ==> !Allows(a, g, s) && Joins(a, g) == 0 && !Joined(a, g)
  {
    if a != [] && !About(a, g) {
      assert forall k :: 0 <= k < |a| ==> a[k].g != g;
      var init := a[..|a| - 1];
      assert forall k :: 0 <= k < |init| ==> init[k] == a[k];
      NothingAbout(init, g, s);
      JoinsNone(a, g);
    }
  }

  lemma {:induction false} JoinsNone(a: seq<Call>, g: Addr)
    requires forall k :: 0 <= k < |a| ==> a[k].g != g
    ensures Joins(a, g) == 0
  {
    if a != [] {
      JoinsNone(a[1..], g);
    }
  }

  lemma {:induction false} JoinsAppend(a: seq<Call>, b: seq<Call>, g: Addr)
    ensures Joins(a + b, g) == Joins(a, g) + Joins(b, g)
    ensures !About(a, g) ==> Joins(a, g) == 0
    ensures !About(b, g) ==> Joins(b, g) == 0
  {
    if !About(a, g) { JoinsNone(a, g); }
    if !About(b, g) { JoinsNone(b, g); }
    if a == [] {
      assert a + b == b;
    } else {
      assert (a + b)[1..] == a[1..] + b;
      JoinsAppend(a[1..], b, g);
    }
  }

  /** The requests for one record. */
  lemma CallsForMeaning(g: Addr, r: Record, s: Addr)
    ensures var calls := CallsFor(g, r);
            && (Allows(calls, g, s) <==> Wants(r, s))
            && Joins(calls, g) == (if r.mode == Include && NoIncludes(r) then 0 else 1)
            && forall k :: 0 <= k < |calls| ==> calls[k].g == g
  {
    SlistMeaning(r.includes, r.nulls, s);
    SlistMeaning(r.excludes, 0, s);
    var calls := CallsFor(g, r);
    if |calls| == 2 {
      assert calls[..1] == [Join(g)] && calls[1..] == [calls[1]] && calls[1..][1..] == [];
      assert Joins(calls[1..], g) == 0;
      assert Join(g) in calls[..1];
    } else if |calls| == 1 {
      assert calls[1..] == [];
    }
  }

  lemma {:induction false} CallsOfMeaning(g: Addr, recs: seq<Record>, i: int, s: Addr)
    requires KeyedRecs(recs)
    ensures var r, calls := FindRec(recs, i), CallsOf(g, recs, i);
            && (Allows(calls, g, s) <==> r.Some? && Wants(r.value, s))
            && Joins(calls, g) == (if r.None? || (r.value.mode == Include && NoIncludes(r.value)) then 0 else 1)
            && (forall k :: 0 <= k < |calls| ==> calls[k].g == g)
            && (r.None? ==> calls == [])
  {
    if recs != [] {
      KeyedRecsTail(recs);
      CallsOfMeaning(g, recs[1..], i, s);
      FindRecSome(recs[1..], recs[0].ifindex);
      CallsForMeaning(g, recs[0], s);
      if recs[0].ifindex == i {
        assert CallsOf(g, recs, i) == CallsFor(g, recs[0]);
      } else {
        assert CallsOf(g, recs, i) == CallsOf(g, recs[1..], i);
      }
    }
  }

  lemma {:induction false} CallsAbout(t: seq<Group>, i: int, g: Addr)
    requires Keyed(t) && !HasGroup(t, g)
    ensures !About(Calls(t, i), g)
  {
    if t != [] {
      KeyedTail(t);
      HasGroupCons(t, g);
      CallsAbout(t[1..], i, g);
      CallsOfMeaning(t[0].mca, t[0].recs, i, 0);
      var a, b := CallsOf(t[0].mca, t[0].recs, i), Calls(t[1..], i);
      var c := a + b;
      forall k | 0 <= k < |c| ensures c[k].g != g {
        if k >= |a| {
          assert c[k] == b[k - |a|];
        }
      }
    }
  }

  lemma {:induction false} CallsOfAppend(g: Addr, a: seq<Record>, b: seq<Record>, i: int)
    ensures CallsOf(g, a + b, i) == CallsOf(g, a, i) + CallsOf(g, b, i)
  {
    if a == [] {
      assert a + b == b;
    } else {
      assert (a + b)[1..] == a[1..] + b && (a + b)[0] == a[0];
      CallsOfAppend(g, a[1..], b, i);
    }
  }

  lemma {:induction false} CallsAppend(a: seq<Group>, b: seq<Group>, i: int)
    ensures Calls(a + b, i) == Calls(a, i) + Calls(b, i)
  {
    if a == [] {
      assert a + b == b;
    } else {
      assert (a + b)[1..] == a[1..] + b && (a + b)[0] == a[0];
      CallsAppend(a[1..], b, i);
    }
  }

  /** Upstream aggregation: one subscription per group with a record that is not an empty
      INCLUDE, and it lets a source in if and only if the record does. */
  lemma {:induction false} UpstreamMeaning(t: seq<Group>, i: int, g: Addr, s: Addr)
    requires Keyed(t)
    ensures var r, calls := Lookup(t, g, i), Calls(t, i);
            && (Allows(calls, g, s) <==> r.Some? && Wants(r.value, s))
            && Joins(calls, g) == if r.None? || (r.value.mode == Include && NoIncludes(r.value)) then 0 else 1
  {
    if t != [] {
      KeyedTail(t);
      UpstreamMeaning(t[1..], i, g, s);
      CallsOfMeaning(t[0].mca, t[0].recs, i, s);
      var a, b := CallsOf(t[0].mca, t[0].recs, i), Calls(t[1..], i);
      AllowsAppend(a, b, g, s);
      if t[0].mca == g {
        CallsAbout(t[1..], i, g);
      } else {
        assert !About(a, g);
      }
    }
  }

  /** Everything the kernel forwards downstream has been requested upstream. */
  lemma RoutesAreRequested(t: seq<Group>, i: int, s: Addr, g: Addr, now: int)
    requires Keyed(t) && CheckRoute(t, i, s, g, now)
    ensures Allows(Calls(t, i), g, s)
  {
    CheckRouteMeaning(t, i, s, g, now);
    UpstreamMeaning(t, i, g, s);
  }

  // ---------------------------------------------------------------- hidden state

  ghost predicate AlikeTables(t: seq<Group>, u: seq<Group>) {
    |t| == |u| && forall k :: 0 <= k < |t| ==> t[k].mca == u[k].mca && AlikeRecs(t[k].recs, u[k].recs)
  }

  ghost predicate AlikeRecs(a: seq<Record>, b: seq<Record>) {
    |a| == |b| && forall k :: 0 <= k < |a| ==> Alike(a[k], b[k])
  }

  lemma {:induction false} AlikeVerdicts(a: seq<Record>, b: seq<Record>, g: Addr, i: int, s: Addr, now: int)
    requires AlikeRecs(a, b)
    ensures CheckRecs(a, i, s, now) == CheckRecs(b, i, s, now) && CallsOf(g, a, i) == CallsOf(g, b, i)
  {
    if a != [] {
      AlikeVerdicts(a[1..], b[1..], g, i, s, now);
      if a[0].mode == Exclude {
        SameAddrsSet(a[0].excludes, b[0].excludes);
        assert Slist(a[0].excludes, 0) == Slist(b[0].excludes, 0);
      }
      assert CallsFor(g, a[0]) == CallsFor(g, b[0]);
    }
  }

  lemma AlikeAppend(a: seq<Record>, b: seq<Record>, c: seq<Record>, d: seq<Record>)
    requires AlikeRecs(a, b) && AlikeRecs(c, d)
    ensures AlikeRecs(a + c, b + d)
  {
  }

  lemma {:induction false} AlikeForward(a: seq<Record>, b: seq<Record>, from: int, s: Addr, now: int)
    requires AlikeRecs(a, b)
    ensures AlikeRecs(ForwardRecs(a, from, s, now).0, ForwardRecs(b, from, s, now).0)
    ensures ForwardRecs(a, from, s, now).1 == ForwardRecs(b, from, s, now).1
  {
    if a != [] {
      AlikeForward(a[1..], b[1..], from, s, now);
      var r, q := a[0], b[0];
      ExpiryAlike(r, q, s, now);
      if r.mode == Exclude {
        SameAddrsSet(r.excludes, q.excludes);
      }
      var x, y := ForwardRecs(a[1..], from, s, now).0, ForwardRecs(b[1..], from, s, now).0;
      AlikeAppend([r], [q], x, y);
      AlikeAppend(OptSeq(Touch(r, s, now)), OptSeq(Touch(q, s, now)), x, y);
      AlikeAppend(OptSeq(Touch(r, s, now)), OptSeq(Touch(q, s, now)), a[1..], b[1..]);
    }
  }

  lemma {:induction false} AlikeSweep(a: seq<Record>, b: seq<Record>, now: int)
    requires AlikeRecs(a, b)
    ensures AlikeRecs(SweepRecs(a, now), SweepRecs(b, now))
  {
    if a != [] {
      AlikeSweep(a[1..], b[1..], now);
      ExpiryAlike(a[0], b[0], 0, now);
      AlikeAppend(OptSeq(Sweep(a[0], now)), OptSeq(Sweep(b[0], now)), SweepRecs(a[1..], now), SweepRecs(b[1..], now));
    }
  }

  lemma {:induction false} AlikeReport(a: seq<Record>, b: seq<Record>, i: int, ty: RecType, l: seq<Source>, now: int, heap: int, heap': int)
    requires AlikeRecs(a, b)
    ensures AlikeRecs(ReportRecs(a, i, ty, l, now, heap), ReportRecs(b, i, ty, l, now, heap'))
  {
    if a == [] {
      HandleAlike(Fresh(i, heap), Fresh(i, heap'), ty, l, now);
    } else {
      HandleAlike(a[0], b[0], ty, l, now);
      AlikeReport(a[1..], b[1..], i, ty, l, now, heap, heap');
    }
  }

  lemma AlikeGroups(a: seq<Group>, b: seq<Group>, c: seq<Group>, d: seq<Group>)
    requires AlikeTables(a, b) && AlikeTables(c, d)
    ensures AlikeTables(a + c, b + d)
  {
  }

  /** Tables that differ only in hidden state give the same verdicts, make the same upstream
      requests and forward the same packets. */
  lemma {:induction false} AlikeTablesLookTheSame(t: seq<Group>, u: seq<Group>, g: Addr, i: int, s: Addr, now: int)
    requires AlikeTables(t, u)
    ensures CheckRoute(t, i, s, g, now) == CheckRoute(u, i, s, g, now)
    ensures Calls(t, i) == Calls(u, i)
    ensures Forward(t, i, s, g, now).1 == Forward(u, i, s, g, now).1
  {
    if t != [] {
      AlikeTablesLookTheSame(t[1..], u[1..], g, i, s, now);
      AlikeVerdicts(t[0].recs, u[0].recs, t[0].mca, i, s, now);
      AlikeForward(t[0].recs, u[0].recs, i, s, now);
    }
  }

  predicate SameHappening(e: Happening, f: Happening) {
    e == f || (e.Reported? && f.Reported? && f == e.(heap := f.heap))
  }

  lemma {:induction false} AlikeReportTable(t: seq<Group>, u: seq<Group>, g: Addr, i: int, ty: RecType, b: seq<Source>, now: int, heap: int, heap': int)
    requires AlikeTables(t, u)
    ensures AlikeTables(Report(t, g, i, ty, b, now, heap), Report(u, g, i, ty, b, now, heap'))
  {
    if t == [] {
      AlikeReport([], [], i, ty, b, now, heap, heap');
    } else {
      AlikeReport(t[0].recs, u[0].recs, i, ty, b, now, heap, heap');
      AlikeReportTable(t[1..], u[1..], g, i, ty, b, now, heap, heap');
    }
  }

  lemma {:induction false} AlikeSweepTable(t: seq<Group>, u: seq<Group>, now: int)
    requires AlikeTables(t, u)
    ensures AlikeTables(SweepTable(t, now), SweepTable(u, now))
  {
    if t != [] {
      AlikeSweepTable(t[1..], u[1..], now);
      AlikeSweep(t[0].recs, u[0].recs, now);
      var a, b := SweepRecs(t[0].recs, now), SweepRecs(u[0].recs, now);
      AlikeGroups(Kept(t[0], a), Kept(u[0], b), SweepTable(t[1..], now), SweepTable(u[1..], now));
    }
  }

  lemma {:induction false} AlikeForwardTable(t: seq<Group>, u: seq<Group>, from: int, s: Addr, g: Addr, now: int)
    requires AlikeTables(t, u)
    ensures AlikeTables(Forward(t, from, s, g, now).0, Forward(u, from, s, g, now).0)
  {
    if t != [] {
      if t[0].mca == g {
        AlikeForward(t[0].recs, u[0].recs, from, s, now);
        AlikeKept(t[0], u[0], ForwardRecs(t[0].recs, from, s, now).0, ForwardRecs(u[0].recs, from, s, now).0);
        AlikeGroups(Kept(t[0], ForwardRecs(t[0].recs, from, s, now).0),
                    Kept(u[0], ForwardRecs(u[0].recs, from, s, now).0), t[1..], u[1..]);
        hide ForwardRecs, AlikeRecs, Kept;
      } else {
        AlikeForwardTable(t[1..], u[1..], from, s, g, now);
        AlikeGroups([t[0]], [u[0]], Forward(t[1..], from, s, g, now).0, Forward(u[1..], from, s, g, now).0);
        hide ForwardRecs, AlikeRecs, Kept;
      }
    }
  }

  lemma AlikeKept(a: Group, b: Group, recs: seq<Record>, others: seq<Record>)
    requires a.mca == b.mca && AlikeRecs(recs, others)
    ensures AlikeTables(Kept(a, recs), Kept(b, others))
  {
  }

  /** They also stay that way through every step, whatever malloc returns. */
  lemma AlikeTablesStay(t: seq<Group>, u: seq<Group>, e: Happening, f: Happening)
    requires AlikeTables(t, u) && SameHappening(e, f)
    ensures AlikeTables(TableStep(t, e), TableStep(u, f))
  {
    match e {
      case Reported(g, i, ty, b, now, heap) => AlikeReportTable(t, u, g, i, ty, b, now, heap, f.heap);
      case SweptAll(now) => AlikeSweepTable(t, u, now);
      case Passed(from, s, g, now) => AlikeForwardTable(t, u, from, s, g, now);
    }
  }

  lemma {:induction false} AlikeFind(a: seq<Record>, b: seq<Record>, i: int)
    requires AlikeRecs(a, b)
    ensures AlikeOpt(FindRec(a, i), FindRec(b, i))
  {
    if a != [] {
      AlikeFind(a[1..], b[1..], i);
    }
  }

  lemma {:induction false} AlikeLookup(t: seq<Group>, u: seq<Group>, g: Addr, i: int)
    requires AlikeTables(t, u)
    ensures AlikeOpt(Lookup(t, g, i), Lookup(u, g, i))
  {
    if t != [] {
      AlikeFind(t[0].recs, u[0].recs, i);
      AlikeLookup(t[1..], u[1..], g, i);
    }
  }

  /** What leaves the machine in one step: the queries of a report, or where a packet goes. */
  datatype Output = Output(queries: seq<Query>, sent: Option<int>)

  function Emits(t: seq<Group>, e: Happening): Output {
    match e
    case Reported(g, i, ty, b, now, heap) =>
      var r := Lookup(t, g, i);
      Output(Queries(if r.Some? then r.value else Fresh(i, heap), ty, b), None)
    case SweptAll(now) => Output([], None)
    case Passed(from, s, g, now) => Output([], Forward(t, from, s, g, now).1)
  }

  lemma AlikeEmit(t: seq<Group>, u: seq<Group>, e: Happening, f: Happening)
    requires AlikeTables(t, u) && SameHappening(e, f)
    ensures Emits(t, e) == Emits(u, f)
  {
    match e {
      case Reported(g, i, ty, b, now, heap) =>
        AlikeLookup(t, u, g, i);
        var r, q := Lookup(t, g, i), Lookup(u, g, i);
        HandleAlike(if r.Some? then r.value else Fresh(i, heap), if q.Some? then q.value else Fresh(i, f.heap), ty, b, now);
      case SweptAll(now) =>
      case Passed(from, s, g, now) => AlikeTablesLookTheSame(t, u, g, from, s, now);
    }
  }

  /** The table after a run that starts with `t`, and everything that left the machine. */
  function From(t: seq<Group>, run: seq<Happening>): seq<Group> {
    if run == [] then t else TableStep(From(t, Init(run)), Last(run))
  }

  /** A run that goes on. */
  lemma {:induction false} FromAfter(run: seq<Happening>, more: seq<Happening>)
    ensures From(TableAfter(run), more) == TableAfter(run + more)
  {
    if more == [] {
      assert run + more == run;
    } else {
      FromAfter(run, Init(more));
      assert Init(run + more) == run + Init(more) && Last(run + more) == Last(more);
    }
  }

  function Outputs(t: seq<Group>, run: seq<Happening>): seq<Output> {
    if run == [] then [] else Outputs(t, Init(run)) + [Emits(From(t, Init(run)), Last(run))]
  }

  /** No route verdict and no upstream request tells the tables apart, now or later. */
  ghost predicate LookTheSame(t: seq<Group>, u: seq<Group>) {
    && (forall i, s: Addr, g: Addr, now :: CheckRoute(t, i, s, g, now) == CheckRoute(u, i, s, g, now))
    && (forall i :: Calls(t, i) == Calls(u, i))
  }

  lemma AlikeLook(t: seq<Group>, u: seq<Group>)
    requires AlikeTables(t, u)
    ensures LookTheSame(t, u)
  {
    forall i, s: Addr, g: Addr, now ensures CheckRoute(t, i, s, g, now) == CheckRoute(u, i, s, g, now) {
      AlikeTablesLookTheSame(t, u, g, i, s, now);
    }
    forall i ensures Calls(t, i) == Calls(u, i) {
      AlikeTablesLookTheSame(t, u, 0, i, 0, 0);
    }
  }

  lemma {:induction false} AlikeRuns(t: seq<Group>, u: seq<Group>, run: seq<Happening>, other: seq<Happening>)
    requires AlikeTables(t, u)
    requires |run| == |other| && forall k :: 0 <= k < |run| ==> SameHappening(run[k], other[k])
    ensures AlikeTables(From(t, run), From(u, other)) && Outputs(t, run) == Outputs(u, other)
  {
    if run != [] {
      AlikeRuns(t, u, Init(run), Init(other));
      var t', u' := From(t, Init(run)), From(u, Init(other));
      AlikeEmit(t', u', Last(run), Last(other));
      AlikeTablesStay(t', u', Last(run), Last(other));
      hide AlikeTables, TableStep, Emits;
    }
  }

  /** Two tables that differ in hidden state only cannot be told apart by any run, even if
      malloc returns different memory in it: all queries and packets are the same, and so are
      the verdicts and the upstream requests at every point. */
  lemma HiddenNeverMatters(t: seq<Group>, u: seq<Group>, run: seq<Happening>, other: seq<Happening>)
    requires AlikeTables(t, u)
    requires |run| == |other| && forall k :: 0 <= k < |run| ==> SameHappening(run[k], other[k])
    ensures Outputs(t, run) == Outputs(u, other)
    ensures forall n :: 0 <= n <= |run| ==> LookTheSame(From(t, run[..n]), From(u, other[..n]))
  {
    AlikeRuns(t, u, run, other);
    forall n | 0 <= n <= |run| ensures LookTheSame(From(t, run[..n]), From(u, other[..n])) {
      AlikeRuns(t, u, run[..n], other[..n]);
      AlikeLook(From(t, run[..n]), From(u, other[..n]));
    }
  }
}
