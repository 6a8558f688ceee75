/** Source lists as values: what the list_* operations of src/linklist.c compute on lists
    of `struct msrc`, and the set algebra they amount to.

    A source list is a sequence of sources in list order.  `msrc_cmp` compares addresses
    only, so membership is membership of the address, and the timers ride along. */
module Sources {

  /** An IPv6 address, `struct in6_addr`, read as a big-endian number. */
  type Addr = a: int | 0 <= a < 0x1_0000_0000_0000_0000_0000_0000_0000_0000

  /** Byte 0 is 0xff. */
  predicate IsMulticast(a: Addr) {
    a / 0x1_0000_0000_0000_0000_0000_0000_0000_00 == 0xff
  }

  /** The scope nibble of a multicast address, in byte 1. */
  function McScope(a: Addr): int {
    a / 0x1_0000_0000_0000_0000_0000_0000_0000 % 16
  }

  /** IN6_IS_ADDR_MC_NODELOCAL or IN6_IS_ADDR_MC_LINKLOCAL: what the daemon never relays. */
  predicate IsLocalMulticast(a: Addr) {
    IsMulticast(a) && (McScope(a) == 1 || McScope(a) == 2)
  }

  /** IN6_IS_ADDR_LINKLOCAL: the prefix fe80::/10. */
  predicate IsLinkLocal(a: Addr) {
    a / 0x40_0000_0000_0000_0000_0000_0000_0000 == 0xfe80 / 0x40
  }

  /** The packets that `l4_ipv6_multicast` does not drop at once; address 0 is unspecified. */
  predicate Forwardable(src: Addr, dst: Addr) {
    !IsMulticast(src) && src != 0 && dst != 0 && !IsLinkLocal(src) && !IsLocalMulticast(dst)
  }

  datatype Option<T> = None | Some(value: T)

  datatype Source = Source(addr: Addr, timer: int)

  // ---------------------------------------------------------------- membership

  function Addrs(l: seq<Source>): set<Addr> {
    set x | x in l :: x.addr
  }

  /** No address occurs twice. */
  ghost predicate DupFree(l: seq<Source>) {
    forall i, j :: 0 <= i < j < |l| ==> l[i].addr != l[j].addr
  }

  /** On a duplicate-free list the address determines the entry. */
  lemma EntryUnique(l: seq<Source>, x: Source, y: Source)
    requires DupFree(l) && x in l && y in l && x.addr == y.addr
    ensures x == y
  {
  }

  lemma AddrsAppend(a: seq<Source>, b: seq<Source>)
    ensures Addrs(a + b) == Addrs(a) + Addrs(b)
  {
    forall x: Addr | x in Addrs(a) + Addrs(b) ensures x in Addrs(a + b) {
      var y :| (y in a || y in b) && y.addr == x;
      assert y in a + b;
    }
  }

  lemma AddrsCons(l: seq<Source>)
    requires l != []
    ensures Addrs(l) == {l[0].addr} + Addrs(l[1..])
  {
    assert l == [l[0]] + l[1..];
    AddrsAppend([l[0]], l[1..]);
    assert Addrs([l[0]]) == {l[0].addr};
  }

  // ---------------------------------------------------------------- selection

  /** The entries of `l` with address in `s` (`inside`) or not in `s`, in order. */
  function Select(l: seq<Source>, s: set<Addr>, inside: bool): seq<Source> {
    if l == [] then []
    else
      var rest := Select(l[1..], s, inside);
      if (l[0].addr in s) == inside then [l[0]] + rest else rest
  }

  lemma {:induction false} SelectMembers(l: seq<Source>, s: set<Addr>, inside: bool)
    ensures forall x :: x in Select(l, s, inside) <==> x in l && (x.addr in s) == inside
  {
    if l != [] {
      SelectMembers(l[1..], s, inside);
      assert forall x :: x in l <==> x == l[0] || x in l[1..];
    }
  }

  /** `list_intersect(a, b)`: copies of the entries of `a` that `b` has. */
  function Intersect(a: seq<Source>, b: seq<Source>): seq<Source> {
    Select(a, Addrs(b), true)
  }

  /** `list_difference(a, b)`: copies of the entries of `a` that `b` lacks. */
  function Difference(a: seq<Source>, b: seq<Source>): seq<Source> {
    Select(a, Addrs(b), false)
  }

  lemma {:induction false} SelectAddrs(l: seq<Source>, s: set<Addr>, inside: bool)
    ensures Addrs(Select(l, s, inside)) == (if inside then Addrs(l) * s else Addrs(l) - s)
  {
    var r := Select(l, s, inside);
    SelectMembers(l, s, inside);
    forall a: Addr | a in Addrs(l) && (a in s) == inside ensures a in Addrs(r) {
      var x :| x in l && x.addr == a;
      assert x in r;
    }
  }

  lemma {:induction false} SelectDupFree(l: seq<Source>, s: set<Addr>, inside: bool)
    requires DupFree(l)
    ensures DupFree(Select(l, s, inside))
  {
    if l != [] {
      SelectDupFree(l[1..], s, inside);
      var rest := Select(l[1..], s, inside);
      SelectMembers(l[1..], s, inside);
      forall x | x in rest ensures x.addr != l[0].addr {
        assert x in l[1..];
      }
    }
  }

  lemma {:induction false} SelectAppend(a: seq<Source>, b: seq<Source>, s: set<Addr>, inside: bool)
    ensures Select(a + b, s, inside) == Select(a, s, inside) + Select(b, s, inside)
  {
    if a == [] {
      assert a + b == b;
    } else {
      SelectAppend(a[1..], b, s, inside);
      assert (a + b)[1..] == a[1..] + b && (a + b)[0] == a[0];
      var x, y := Select(a[1..], s, inside), Select(b, s, inside);
      assert [a[0]] + (x + y) == ([a[0]] + x) + y;
    }
  }

  /** Selecting everything is the identity, selecting nothing gives the empty list. */
  lemma {:induction false} SelectTrivial(l: seq<Source>, s: set<Addr>, inside: bool)
    ensures (forall x :: x in l ==> (x.addr in s) == inside) ==> Select(l, s, inside) == l
    ensures (forall x :: x in l ==> (x.addr in s) != inside) ==> Select(l, s, inside) == []
  {
    if l != [] {
      SelectTrivial(l[1..], s, inside);
      assert l[0] in l && forall x :: x in l[1..] ==> x in l;
    }
  }

  /** Two selections with disjoint or nested effect commute into one. */
  lemma {:induction false} SelectSelect(l: seq<Source>, s: set<Addr>, p: bool, t: set<Addr>, q: bool, u: set<Addr>, o: bool)
    requires forall x :: x in l ==> ((x.addr in u) == o <==> (x.addr in s) == p && (x.addr in t) == q)
    ensures Select(Select(l, s, p), t, q) == Select(l, u, o)
  {
    if l != [] {
      assert l[0] in l && forall x :: x in l[1..] ==> x in l;
      SelectSelect(l[1..], s, p, t, q, u, o);
      var rest := Select(l[1..], s, p);
      if (l[0].addr in s) == p {
        assert ([l[0]] + rest)[1..] == rest;
      }
    }
  }

  // ---------------------------------------------------------------- accumulation

  /** Appending the entries of `b` one by one unless the address is already present: the
      second loop of `list_union`, and `mrec_add_source` over an incoming record. */
  function AddNew(a: seq<Source>, b: seq<Source>): seq<Source>
    decreases |b|
  {
    if b == [] then a
    else AddNew(if b[0].addr in Addrs(a) then a else a + [b[0]], b[1..])
  }

  /** `list_union(a, b)`. */
  function Union(a: seq<Source>, b: seq<Source>): seq<Source> {
    AddNew(a, b)
  }

  lemma {:induction false} AddNewAppend(a: seq<Source>, b: seq<Source>, c: seq<Source>)
    ensures AddNew(a, b + c) == AddNew(AddNew(a, b), c)
    decreases |b|
  {
    if b == [] {
      assert b + c == c;
    } else {
      assert (b + c)[1..] == b[1..] + c;
      AddNewAppend(if b[0].addr in Addrs(a) then a else a + [b[0]], b[1..], c);
    }
  }

  /** The union is left-biased: it starts with `a`, entries, order and timers; only
      entries of `b` with a new address follow; it has every address, and none twice. */
  lemma {:induction false} UnionMeaning(a: seq<Source>, b: seq<Source>)
    ensures a <= AddNew(a, b)
    ensures Addrs(AddNew(a, b)) == Addrs(a) + Addrs(b)
    ensures forall x :: x in AddNew(a, b) ==> x in a || (x in b && x.addr !in Addrs(a))
    ensures DupFree(a) ==> DupFree(AddNew(a, b))
    decreases |b|
  {
    if b != [] {
      var a' := if b[0].addr in Addrs(a) then a else a + [b[0]];
      AddrsAppend(a, [b[0]]);
      AddrsCons(b);
      assert Addrs([b[0]]) == {b[0].addr};
      if DupFree(a) {
        assert DupFree(a') by {
          forall i, j | 0 <= i < j < |a'| ensures a'[i].addr != a'[j].addr {
            assert i < |a| ==> a[i] in a;
          }
        }
      }
      UnionMeaning(a', b[1..]);
      assert Addrs(a) <= Addrs(a');
    }
  }

  /** On a duplicate-free second operand the union is `a` followed by `b` minus `a`. */
  lemma {:induction false} UnionIsAppend(a: seq<Source>, b: seq<Source>)
    requires DupFree(b)
    ensures AddNew(a, b) == a + Difference(b, a)
    decreases |b|
  {
    if b != [] {
      var a' := if b[0].addr in Addrs(a) then a else a + [b[0]];
      UnionIsAppend(a', b[1..]);
      AddrsAppend(a, [b[0]]);
      assert Addrs([b[0]]) == {b[0].addr};
      forall x | x in b[1..] ensures (x.addr in Addrs(a')) == (x.addr in Addrs(a)) {
      }
      SelectCongruence(b[1..], Addrs(a'), Addrs(a), false);
      if b[0].addr !in Addrs(a) {
        assert a' + Difference(b[1..], a) == a + ([b[0]] + Difference(b[1..], a));
      }
    }
  }

  lemma {:induction false} SelectCongruence(l: seq<Source>, s: set<Addr>, t: set<Addr>, inside: bool)
    requires forall x :: x in l ==> (x.addr in s <==> x.addr in t)
    ensures Select(l, s, inside) == Select(l, t, inside)
  {
    if l != [] {
      assert l[0] in l && forall x :: x in l[1..] ==> x in l;
      SelectCongruence(l[1..], s, t, inside);
    }
  }

  // ---------------------------------------------------------------- deletion

  /** The list without its first entry for address `a`: `list_hasmember` followed by
      `listnode_delete` of the element it returned. */
  function RemoveFirst(l: seq<Source>, a: Addr): seq<Source> {
    if l == [] then [] else if l[0].addr == a then l[1..] else [l[0]] + RemoveFirst(l[1..], a)
  }

  /** `list_remove_all(a, b)`. */
  function RemoveAll(a: seq<Source>, b: seq<Source>): seq<Source>
    decreases |b|
  {
    if b == [] then a else RemoveAll(RemoveFirst(a, b[0].addr), b[1..])
  }

  lemma {:induction false} RemoveFirstIsSelect(l: seq<Source>, a: Addr)
    requires DupFree(l)
    ensures RemoveFirst(l, a) == Select(l, {a}, false)
  {
    if l != [] {
      if l[0].addr == a {
        SelectTrivial(l[1..], {a}, false);
        forall x | x in l[1..] ensures x.addr != a {
        }
      } else {
        RemoveFirstIsSelect(l[1..], a);
      }
    }
  }

  /** On a duplicate-free list, deleting in place agrees with `list_difference`. */
  lemma {:induction false} RemoveAllIsDifference(a: seq<Source>, b: seq<Source>)
    requires DupFree(a)
    ensures RemoveAll(a, b) == Difference(a, b)
    decreases |b|
  {
    if b == [] {
      SelectTrivial(a, Addrs(b), false);
    } else {
      RemoveFirstIsSelect(a, b[0].addr);
      SelectDupFree(a, {b[0].addr}, false);
      RemoveAllIsDifference(RemoveFirst(a, b[0].addr), b[1..]);
      AddrsCons(b);
      SelectSelect(a, {b[0].addr}, false, Addrs(b[1..]), false, Addrs(b), false);
    }
  }

  // ---------------------------------------------------------------- timers

  /** `set_source_timers(l, which, v)`; a NULL `which` is the set of all of `l`. */
  function SetTimers(l: seq<Source>, which: set<Addr>, v: int): (r: seq<Source>)
    ensures |r| == |l|
    ensures forall i :: 0 <= i < |l| ==> r[i] == (if l[i].addr in which then l[i].(timer := v) else l[i])
  {
    seq(|l|, i requires 0 <= i < |l| => if l[i].addr in which then l[i].(timer := v) else l[i])
  }

  lemma SetTimersMeaning(l: seq<Source>, which: set<Addr>, v: int)
    ensures Addrs(SetTimers(l, which, v)) == Addrs(l)
    ensures DupFree(l) ==> DupFree(SetTimers(l, which, v))
    ensures forall x :: x in SetTimers(l, which, v) <==>
              (x.addr in which && x.timer == v && x.addr in Addrs(l)) || (x.addr !in which && x in l)
  {
    var r := SetTimers(l, which, v);
    forall x: Source | x in r
      ensures (x.addr in which && x.timer == v && x.addr in Addrs(l)) || (x.addr !in which && x in l)
    {
      var i :| 0 <= i < |r| && r[i] == x;
      assert l[i] in l && l[i].addr == x.addr;
    }
    forall x: Source | (x.addr in which && x.timer == v && x.addr in Addrs(l)) || (x.addr !in which && x in l)
      ensures x in r
    {
      var y :| y in l && y.addr == x.addr && (x.addr !in which ==> y == x);
      var i :| 0 <= i < |l| && l[i] == y;
      assert r[i] == x;
    }
    forall a: Addr | a in Addrs(l) ensures a in Addrs(r) {
      var y :| y in l && y.addr == a;
      var i :| 0 <= i < |l| && l[i] == y;
      assert r[i] in r && r[i].addr == a;
    }
  }

  lemma SetTimersIdle(l: seq<Source>, which: set<Addr>, v: int)
    requires Addrs(l) !! which
    ensures SetTimers(l, which, v) == l
  {
    forall i | 0 <= i < |l| ensures l[i].addr !in which {
      assert l[i] in l;
    }
  }

  /** What a sweep at `now` leaves of an include list. */
  function Unexpired(l: seq<Source>, now: int): seq<Source> {
    if l == [] then []
    else if l[0].timer > now then [l[0]] + Unexpired(l[1..], now)
    else Unexpired(l[1..], now)
  }

  lemma {:induction false} UnexpiredMembers(l: seq<Source>, now: int)
    ensures forall x :: x in Unexpired(l, now) <==> x in l && x.timer > now
    ensures DupFree(l) ==> DupFree(Unexpired(l, now))
  {
    if l != [] {
      UnexpiredMembers(l[1..], now);
      assert forall x :: x in l <==> x == l[0] || x in l[1..];
      if DupFree(l) {
        forall x | x in Unexpired(l[1..], now) ensures x.addr != l[0].addr {
          assert x in l[1..];
        }
      }
    }
  }

  lemma {:induction false} UnexpiredAppend(a: seq<Source>, b: seq<Source>, now: int)
    ensures Unexpired(a + b, now) == Unexpired(a, now) + Unexpired(b, now)
  {
    if a == [] {
      assert a + b == b;
    } else {
      UnexpiredAppend(a[1..], b, now);
      assert (a + b)[1..] == a[1..] + b && (a + b)[0] == a[0];
      var x, y := Unexpired(a[1..], now), Unexpired(b, now);
      assert [a[0]] + (x + y) == ([a[0]] + x) + y;
    }
  }
}
