/** src/mcast_client.c: the source array that `mcast_set_filter` hands to the kernel. */
module McastClient {
  import opened LinkedList
  import opened Sources
  import opened SourceLists

  /** The array `mcast_set_filter` builds: the addresses, then untouched zero entries. */
  function Slist(l: seq<Source>, nulls: nat): seq<Option<Addr>> {
    seq(|l| + nulls, k requires 0 <= k < |l| + nulls => if k < |l| then Some(l[k].addr) else None)
  }

  lemma SlistMeaning(l: seq<Source>, nulls: nat, s: Addr)
    ensures Some(s) in Slist(l, nulls) <==> s in Addrs(l)
    ensures |Slist(l, nulls)| == |l| + nulls && forall k :: 0 <= k < |l| ==> Slist(l, nulls)[k] == Some(l[k].addr)
    ensures forall k :: |l| <= k < |l| + nulls ==> Slist(l, nulls)[k] == None
  {
    if s in Addrs(l) {
      var x :| x in l && x.addr == s;
      var k :| 0 <= k < |l| && l[k] == x;
      assert Slist(l, nulls)[k] == Some(s);
    }
    if Some(s) in Slist(l, nulls) {
      var k :| 0 <= k < |l| + nulls && Slist(l, nulls)[k] == Some(s);
      assert l[k] in l && l[k].addr == s;
    }
  }

  /** The array `mcast_set_filter` hands to the kernel: `count` zeroed entries, the first of
      them filled by LIST_LOOP; so a NULL node leaves a zero entry at the end. */
  method FillSources(l: SrcList) returns (slist: array<Option<Addr>>)
    requires l.Valid()
    ensures fresh(slist) && slist[..] == Slist(View(l.contents), Nulls(l.contents))
  {
    hide View, Nulls;
    Start(l);
    var count: nat := l.count;
    slist := new Option<Addr>[count](_ => None);
    ghost var d := l.contents;
    WholeView(d);
    ViewLength(d);
    var ln := l.head;
    ghost var k: nat := 0;
    var i: nat := 0;
    while ln != null
      invariant k <= |d| && ln == At(l.nodes, k) && i == |View(d[..k])| && i <= k
      invariant forall m :: 0 <= m < i ==> slist[m] == Some(View(d[..k])[m].addr)
      invariant forall m :: i <= m < count ==> slist[m] == None
      decreases |d| - k
    {
      Cursor(l, ln, k);
      ViewStep(d, k);
      if ln.data.Some? {
        slist[i] := Some(ln.data.value.addr);
        i := i + 1;
      }
      ln := ln.next;
      k := k + 1;
    }
    Cursor(l, ln, k);
  }
}
