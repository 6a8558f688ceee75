/** src/kernel_routing.c: the routes installed in the kernel and the list that remembers
    them.  The kernel's forwarding cache is the set `kernel`; adding and deleting entries is
    taken to succeed. */
module Routes {
  import opened LinkedList
  import opened Sources
  import opened Mld2
  import opened Table
  import opened Views
  import opened GroupList
  import opened Splices

  /** `struct kernel_route6`. */
  datatype Route = Route(vif: int, src: Addr, grp: Addr)

  type Test = Route -> bool

  // ---------------------------------------------------------------- one pass

  /** What one pass of `expire_routes` leaves: after a deletion the loop advances twice, so
      the route that follows a deleted one is not looked at. */
  function Pass(l: seq<Route>, wanted: Test): seq<Route> {
    if l == [] then []
    else if wanted(l[0]) then [l[0]] + Pass(l[1..], wanted)
    else if |l| == 1 then []
    else [l[1]] + Pass(l[2..], wanted)
  }

  function WantedOf(l: seq<Route>, wanted: Test): seq<Route> {
    if l == [] then []
    else if wanted(l[0]) then [l[0]] + WantedOf(l[1..], wanted)
    else WantedOf(l[1..], wanted)
  }

  function Stale(l: seq<Route>, wanted: Test): nat {
    if l == [] then 0 else Stale(l[1..], wanted) + if wanted(l[0]) then 0 else 1
  }

  /** `a` is `b` with elements left out. */
  predicate Subsequence(a: seq<Route>, b: seq<Route>) {
    if a == [] then true
    else if b == [] then false
    else if a[0] == b[0] then Subsequence(a[1..], b[1..])
    else Subsequence(a, b[1..])
  }

  lemma {:induction false} DropHead(a: seq<Route>, b: seq<Route>)
    requires a != [] && Subsequence(a, b)
    ensures Subsequence(a[1..], b)
  {
    if a[0] == b[0] {
      if a[1..] != [] {
        if b[1..] != [] && a[1] == b[0] {
          DropHead(a[1..], b[1..]);
        }
      }
    } else {
      DropHead(a, b[1..]);
      if a[1..] != [] && a[1] == b[0] {
        DropHead(a[1..], b[1..]);
      }
    }
  }

  lemma SubsequenceSkip(a: seq<Route>, b: seq<Route>, x: Route)
    requires Subsequence(a, b)
    ensures Subsequence(a, [x] + b)
  {
    assert ([x] + b)[1..] == b;
    if a != [] && a[0] == x {
      DropHead(a, b);
    }
  }

  /** One pass keeps every wanted route, in order, and at most half of the stale ones. */
  lemma {:induction false} PassMeaning(l: seq<Route>, wanted: Test)
    ensures WantedOf(Pass(l, wanted), wanted) == WantedOf(l, wanted)
    ensures Stale(Pass(l, wanted), wanted) <= Stale(l, wanted) / 2
    ensures Subsequence(Pass(l, wanted), l)
  {
    if l != [] {
      if wanted(l[0]) {
        PassMeaning(l[1..], wanted);
        assert Pass(l, wanted)[1..] == Pass(l[1..], wanted);
      } else if |l| > 1 {
        PassMeaning(l[2..], wanted);
        assert l[1..][1..] == l[2..];
        assert Pass(l, wanted)[1..] == Pass(l[2..], wanted);
        assert Subsequence(Pass(l, wanted), l[1..]);
        SubsequenceSkip(Pass(l, wanted), l[1..], l[0]);
        assert [l[0]] + l[1..] == l;
      }
    }
  }

  lemma {:induction false} PassShrinks(l: seq<Route>, wanted: Test)
    ensures forall x :: x in Pass(l, wanted) ==> x in l
  {
    if l != [] {
      if wanted(l[0]) {
        PassShrinks(l[1..], wanted);
      } else if |l| > 1 {
        PassShrinks(l[2..], wanted);
      }
    }
  }

  /** The bound is attained: of `n` stale routes in a row, exactly n/2 survive a pass. */
  lemma {:induction false} PassIsSlow(l: seq<Route>, wanted: Test)
    requires forall x :: x in l ==> !wanted(x)
    ensures |Pass(l, wanted)| == |l| / 2 && forall x :: x in Pass(l, wanted) ==> !wanted(x)
  {
    if |l| > 1 {
      PassIsSlow(l[2..], wanted);
    }
  }

  // ---------------------------------------------------------------- convergence

  function Passes(l: seq<Route>, wanted: Test, n: nat): seq<Route>
    decreases n
  {
    if n == 0 then l else Passes(Pass(l, wanted), wanted, n - 1)
  }

  lemma TwoPasses(l: seq<Route>, wanted: Test)
    ensures Passes(l, wanted, 2) == Pass(Pass(l, wanted), wanted)
  {
    assert Passes(Pass(l, wanted), wanted, 1) == Pass(Pass(l, wanted), wanted);
  }

  /** The number of binary digits: floor(log2 n) + 1 for positive n, and 0 for 0. */
  function Digits(n: nat): nat {
    if n == 0 then 0 else 1 + Digits(n / 2)
  }

  lemma {:induction false} DigitsGrow(m: nat, n: nat)
    requires m <= n
    ensures Digits(m) <= Digits(n)
  {
    if m > 0 {
      DigitsGrow(m / 2, n / 2);
    }
  }

  lemma {:induction false} NothingStale(l: seq<Route>, wanted: Test)
    ensures Stale(l, wanted) == 0 <==> WantedOf(l, wanted) == l
    ensures |WantedOf(l, wanted)| + Stale(l, wanted) == |l|
  {
    if l != [] {
      NothingStale(l[1..], wanted);
    }
  }

  /** With membership and time fixed, floor(log2 n) + 1 passes over n stale routes leave
      exactly the wanted ones, and more passes change nothing. */
  lemma {:induction false} Convergence(l: seq<Route>, wanted: Test, n: nat)
    requires n >= Digits(Stale(l, wanted))
    ensures Passes(l, wanted, n) == WantedOf(l, wanted)
    decreases n
  {
    if n == 0 {
      NothingStale(l, wanted);
    } else {
      PassMeaning(l, wanted);
      DigitsGrow(Stale(Pass(l, wanted), wanted), Stale(l, wanted) / 2);
      Convergence(Pass(l, wanted), wanted, n - 1);
    }
  }

  /** When every route is stale, no smaller number of passes will do. */
  lemma {:induction false} ConvergenceIsTight(l: seq<Route>, wanted: Test, n: nat)
    requires (forall x :: x in l ==> !wanted(x)) && n < Digits(|l|)
    ensures Passes(l, wanted, n) != []
    decreases n
  {
    if n > 0 {
      PassIsSlow(l, wanted);
      ConvergenceIsTight(Pass(l, wanted), wanted, n - 1);
    }
  }

  // ---------------------------------------------------------------- the list and the kernel

  ghost predicate NoRepeats(l: seq<Route>) {
    forall i, j :: 0 <= i < j < |l| ==> l[i] != l[j]
  }

  function Elements(l: seq<Route>): set<Route> {
    set x | x in l
  }

  /** The walk over `l` has kept `kept`; `rest` is still to come. */
  ghost predicate Walking(l: seq<Route>, wanted: Test, contents: seq<Route>, i: nat, kernel: set<Route>) {
    && i <= |contents| && NoRepeats(contents) && kernel == Elements(contents)
    && (forall x :: x in contents ==> x.vif == 0)
    && Pass(l, wanted) == contents[..i] + Pass(contents[i..], wanted)
  }

  lemma WalkStart(l: seq<Route>, wanted: Test)
    requires NoRepeats(l) && forall x :: x in l ==> x.vif == 0
    ensures Walking(l, wanted, l, 0, Elements(l))
  {
    assert l[0..] == l && l[..0] + Pass(l, wanted) == Pass(l, wanted);
  }

  lemma WalkStep(l: seq<Route>, wanted: Test, c: seq<Route>, i: nat, kernel: set<Route>)
    requires Walking(l, wanted, c, i, kernel) && i < |c|
    ensures c[i].vif == 0
    ensures wanted(c[i]) ==> Walking(l, wanted, c, i + 1, kernel)
    ensures !wanted(c[i]) ==> Walking(l, wanted, Without(c, i), if i + 1 < |c| then i + 1 else i, kernel - {c[i]})
  {
    PassFrom(c, i, wanted);
    WithoutRoute(c, i);
    hide Pass, NoRepeats, Elements;
  }

  /** What a pass that has kept `c[..i]` makes of the rest. */
  lemma PassFrom(c: seq<Route>, i: nat, wanted: Test)
    requires i < |c|
    ensures var rest, w := c[..i] + Pass(c[i..], wanted), Without(c, i);
            if wanted(c[i]) then rest == c[..i + 1] + Pass(c[i + 1..], wanted)
            else if i + 1 < |c| then rest == w[..i + 1] + Pass(w[i + 1..], wanted)
            else rest == w[..i] + Pass(w[i..], wanted)
  {
    var w := Without(c, i);
    assert c[i..][0] == c[i] && c[i..][1..] == c[i + 1..];
    if wanted(c[i]) {
      assert c[..i] + ([c[i]] + Pass(c[i + 1..], wanted)) == c[..i + 1] + Pass(c[i + 1..], wanted);
    } else if i + 1 < |c| {
      assert c[i..][1] == c[i + 1] && c[i..][2..] == c[i + 2..];
      assert w[..i + 1] == c[..i] + [c[i + 1]] && w[i + 1..] == c[i + 2..];
      assert c[..i] + ([c[i + 1]] + Pass(c[i + 2..], wanted)) == w[..i + 1] + Pass(c[i + 2..], wanted);
    } else {
      assert w[..i] == c[..i] && w[i..] == [];
    }
  }

  lemma WithoutRoute(c: seq<Route>, i: nat)
    requires i < |c| && NoRepeats(c)
    ensures NoRepeats(Without(c, i)) && Elements(Without(c, i)) == Elements(c) - {c[i]}
    ensures forall x :: x in Without(c, i) ==> x in c
  {
    var w := Without(c, i);
    forall x | x in c && x != c[i] ensures x in w {
      var k :| 0 <= k < |c| && c[k] == x;
      assert w[if k < i then k else k - 1] == x;
    }
  }

  lemma WalkEnd(l: seq<Route>, wanted: Test, c: seq<Route>, i: nat, kernel: set<Route>)
    requires Walking(l, wanted, c, i, kernel) && i == |c|
    ensures c == Pass(l, wanted) && NoRepeats(c) && kernel == Elements(c) && forall x :: x in c ==> x.vif == 0
  {
    assert c[i..] == [] && c[..i] + [] == c;
  }

  /** Whether the downstream interface wants a route: the test of both loops. */
  function WantedBy(t: seq<Group>, down: int, now: int): Test {
    (r: Route) => CheckRoute(t, down, r.src, r.grp, now)
  }

  /** One pass keeps what `check_route` wants, and deletes only what it refuses. */
  lemma PassKeeps(l: seq<Route>, t: seq<Group>, down: int, now: int)
    ensures var left := Pass(l, WantedBy(t, down, now));
            && (forall x :: x in left ==> x in l)
            && (forall x :: x in l && CheckRoute(t, down, x.src, x.grp, now) ==> x in left)
  {
    var w := WantedBy(t, down, now);
    PassMeaning(l, w);
    PassShrinks(l, w);
    WantedMembers(l, w);
    WantedMembers(Pass(l, w), w);
    hide Pass, WantedOf, CheckRoute;
    assert forall x :: w(x) == CheckRoute(t, down, x.src, x.grp, now);
  }

  lemma {:induction false} WantedMembers(l: seq<Route>, wanted: Test)
    ensures forall x :: x in WantedOf(l, wanted) <==> x in l && wanted(x)
  {
    if l != [] {
      WantedMembers(l[1..], wanted);
      assert forall x :: x in l <==> x == l[0] || x in l[1..];
    }
  }

  /** A route that `check_route` refuses is for a group without record on the interface, or for a
      source that the record does not let through. */
  lemma RefusedMeaning(t: seq<Group>, down: int, x: Route, now: int)
    requires Keyed(t)
    ensures !CheckRoute(t, down, x.src, x.grp, now) <==>
            var r := Lookup(t, x.grp, down); r.None? || !Accepts(r.value, x.src, now)
  {
    CheckRouteMeaning(t, down, x.src, x.grp, now);
  }

  /** Convergence in the same terms: with the table and time fixed, enough passes over the
      installed routes leave exactly the ones `check_route` wants. */
  lemma RoutesConverge(l: seq<Route>, t: seq<Group>, down: int, now: int, n: nat)
    requires n >= Digits(|l|)
    ensures Elements(Passes(l, WantedBy(t, down, now), n)) ==
            set x | x in l && CheckRoute(t, down, x.src, x.grp, now)
  {
    var w := WantedBy(t, down, now);
    NothingStale(l, w);
    DigitsGrow(Stale(l, w), |l|);
    Convergence(l, w, n);
    WantedMembers(l, w);
    hide Passes, WantedOf, CheckRoute, Stale;
    assert forall x :: w(x) == CheckRoute(t, down, x.src, x.grp, now);
  }

  /** Of the routes installed before, none that was wanted then and is wanted now has gone. */
  ghost predicate KeepsRoutes(before: set<Route>, after: set<Route>, t: seq<Group>, u: seq<Group>, down: int, now: int) {
    && after <= before
    && forall x :: x in before && CheckRoute(t, down, x.src, x.grp, now) && CheckRoute(u, down, x.src, x.grp, now)
         ==> x in after
  }

  /** Steps that change each record once, from its first to its last state, keep such routes. */
  lemma KeepsThrough(k0: set<Route>, k1: set<Route>, k2: set<Route>, t: seq<Group>, u: seq<Group>, v: seq<Group>, down: int, now: int)
    requires Keyed(t) && Keyed(u) && Keyed(v) && Between(t, u, v, down)
    requires KeepsRoutes(k0, k1, t, u, down, now) && KeepsRoutes(k1, k2, u, v, down, now)
    ensures KeepsRoutes(k0, k2, t, v, down, now)
  {
    forall x | x in k0 && CheckRoute(t, down, x.src, x.grp, now) && CheckRoute(v, down, x.src, x.grp, now) ensures x in k2 {
      CheckRouteMeaning(t, down, x.src, x.grp, now);
      CheckRouteMeaning(u, down, x.src, x.grp, now);
      CheckRouteMeaning(v, down, x.src, x.grp, now);
      assert Lookup(v, x.grp, down) == Lookup(u, x.grp, down) || Lookup(u, x.grp, down) == Lookup(t, x.grp, down);
    }
  }

  lemma KeepsAll(k: set<Route>, t: seq<Group>, u: seq<Group>, down: int, now: int)
    ensures KeepsRoutes(k, k, t, u, down, now)
  {
  }

  lemma KeepsSame(k0: set<Route>, k1: set<Route>, k2: set<Route>, t: seq<Group>, u: seq<Group>, down: int, now: int)
    requires Keyed(t) && Keyed(u)
    requires KeepsRoutes(k0, k1, t, u, down, now) && KeepsRoutes(k1, k2, u, u, down, now)
    ensures KeepsRoutes(k0, k2, t, u, down, now)
  {
    KeepsThrough(k0, k1, k2, t, u, u, down, now);
  }

  /** Routes that survive a pass over table `u` survive the removal of a record from it. */
  lemma KeepsAfterRemoval(before: set<Route>, after: set<Route>, t: seq<Group>, u: seq<Group>, k: nat, j: nat, down: int, now: int)
    requires Keyed(u) && k < |u| && j < |u[k].recs| && after <= before
    requires forall x :: x in before && CheckRoute(u, down, x.src, x.grp, now) ==> x in after
    ensures KeepsRoutes(before, after, t, Splice(u, k, j, None), down, now)
  {
    var v := Splice(u, k, j, None);
    RemovalBetween(u, k, j, down);
    forall x | x in before && CheckRoute(v, down, x.src, x.grp, now) ensures x in after {
      CheckRouteMeaning(u, down, x.src, x.grp, now);
      CheckRouteMeaning(v, down, x.src, x.grp, now);
      assert Lookup(v, x.grp, down).Some? ==> Lookup(v, x.grp, down) == Lookup(u, x.grp, down);
    }
  }

  class MRouter {
    const routes: List<Route>
    var kernel: set<Route>

    /** The list holds each installed route once, and nothing else. */
    ghost predicate Valid()
      reads this, routes, routes.Repr
    {
      && routes.Valid() && NoRepeats(routes.contents) && kernel == Elements(routes.contents)
      && forall x :: x in routes.contents ==> x.vif == 0
    }

    /** `mrouter_init`. */
    constructor ()
      ensures Valid() && routes.contents == [] && kernel == {}
      ensures fresh(routes) && routes.Repr == {}
    {
      routes := new List<Route>();
      kernel := {};
    }

    /** `have_route`. */
    method HaveRoute(r: Route) returns (found: bool)
      requires routes.Valid()
      ensures found <==> r in routes.contents
    {
      var ln := routes.head;
      ghost var i: nat := 0;
      Start(routes);
      while ln != null
        invariant i <= |routes.contents| && ln == At(routes.nodes, i)
        invariant r !in routes.contents[..i]
        decreases |routes.contents| - i
      {
        Cursor(routes, ln, i);
        if ln.data == r {
          return true;
        }
        ln := ln.next;
        i := i + 1;
      }
      Cursor(routes, ln, i);
      assert routes.contents[..i] == routes.contents;
      return false;
    }

    /** The route list shares nothing with the group table. */
    ghost predicate Separate(g: GroupTable)
      reads this, routes, g
    {
      this !in g.Repr && routes !in g.Repr && routes.Repr !! g.Repr
    }

    /** The decision part of `mrouter6_handlesocket`: an upcall for a packet from `src` to
        `dst` that arrived on multicast interface `mif`. */
    method Upcall(g: GroupTable, down: int, mif: int, src: Addr, dst: Addr, now: int)
      requires Valid() && g.Valid()
      modifies this, routes, routes.Repr
      ensures Valid() && fresh(routes.Repr - old(routes.Repr))
      ensures var r := Route(0, src, dst);
              if IsMulticast(dst) && !IsLocalMulticast(dst) && mif == 0
                 && Views.CheckRoute(old(g.table), down, src, dst, now) && r !in old(kernel)
              then routes.contents == old(routes.contents) + [r] && kernel == old(kernel) + {r}
              else routes.contents == old(routes.contents) && kernel == old(kernel)
    {
      if !IsMulticast(dst) || IsLocalMulticast(dst) {
        return;
      }
      hide GroupTable.Valid;
      var wanted := false;
      if mif == 0 {
        wanted := g.CheckRoute(down, src, dst, now);
      }
      if wanted {
        Save(Route(0, src, dst));
      }
    }

    /** `mrouter6_add_route`, and `save_route` unless `have_route`. */
    method Save(r: Route)
      requires Valid() && r.vif == 0
      modifies this, routes, routes.Repr
      ensures Valid() && fresh(routes.Repr - old(routes.Repr)) && kernel == old(kernel) + {r}
      ensures routes.contents == old(routes.contents) + if r in old(kernel) then [] else [r]
    {
      kernel := kernel + {r};
      var have := HaveRoute(r);
      if !have {
        routes.Add(r);
      }
    }

    /** `expire_routes`: no route that `check_route` wants goes, and what goes it refuses. */
    method ExpireRoutes(g: GroupTable, down: int, now: int)
      requires Valid() && g.Valid() && Separate(g)
      modifies this, routes, routes.Repr`next, routes.Repr`prev
      ensures Valid() && routes.Repr == old(routes.Repr) && kernel <= old(kernel)
      ensures routes.contents == Pass(old(routes.contents), WantedBy(g.table, down, now))
      ensures forall x :: x in old(kernel) && Views.CheckRoute(g.table, down, x.src, x.grp, now) ==> x in kernel
      ensures forall x :: x in old(kernel) && x !in kernel ==> !Views.CheckRoute(g.table, down, x.src, x.grp, now)
    {
      hide GroupTable.Valid, Pass, NoRepeats, CheckRoute, WantedBy, List.Valid;
      PassKeeps(routes.contents, g.table, down, now);
      Walk(g, down, now);
    }

    /** The loop, with its double advance. */
    method Walk(g: GroupTable, down: int, now: int)
      requires Valid() && g.Valid() && Separate(g)
      modifies this, routes, routes.Repr`next, routes.Repr`prev
      ensures Valid() && routes.Repr == old(routes.Repr)
      ensures routes.contents == Pass(old(routes.contents), WantedBy(g.table, down, now))
    {
      hide GroupTable.Valid, Pass, Elements, NoRepeats, CheckRoute, List.Valid;
      ghost var l, w := routes.contents, WantedBy(g.table, down, now);
      var ln := routes.head;
      ghost var i: nat := 0;
      WalkStart(l, w);
      Start(routes);
      while ln != null
        invariant routes.Valid() && routes.Repr == old(routes.Repr) && g.Valid()
        invariant Walking(l, w, routes.contents, i, kernel) && i <= |routes.contents| && ln == At(routes.nodes, i)
        decreases |routes.contents| - i
      {
        Cursor(routes, ln, i);
        WalkStep(l, w, routes.contents, i, kernel);
        hide Walking;
        var route := ln.data;
        var wanted := g.CheckRoute(down, route.src, route.grp, now);
        if !wanted {
          kernel := kernel - {Route(0, route.src, route.grp)};
          var tmp := ln;
          ln := ln.next;
          routes.DeleteNode(tmp, i);
          if ln == null {
            break;
          }
          Cursor(routes, ln, i);
        }
        ln := ln.next;
        i := i + 1;
      }
      Cursor(routes, ln, i);
      WalkEnd(l, w, routes.contents, i, kernel);
    }
  }
}
