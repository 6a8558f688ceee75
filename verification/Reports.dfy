/** `l4_ipv6_icmpv6_mld2_report` of src/ecmh.c with src/mrec.c: from the bytes of a Version 2
    Multicast Listener Report (RFC 3810, section 5.2) to the records it applies.

    Memory is a function from offsets to bytes, because the code looks at a record header
    before it knows that the header lies inside the payload. */
module Reports {
  import opened LinkedList
  import opened Sources
  import opened SourceLists
  import opened Mld2
  import opened Checksum

  type Memory = int -> byte

  /** What is handed to `handle_downstream_subscription`: group, type, source list. */
  type Applied = (Addr, RecType, seq<Source>)

  const REPORT_HEADER := 8   // sizeof(struct mld2_report)
  const RECORD_HEADER := 20  // sizeof(struct mld2_grec)

  /** `is_known_grec_type`. */
  function TypeOf(b: byte): Option<RecType> {
    if b == 1 then Some(IsIn) else if b == 2 then Some(IsEx) else if b == 3 then Some(ToIn)
    else if b == 4 then Some(ToEx) else if b == 5 then Some(Allow) else if b == 6 then Some(Block)
    else None
  }

  // ---------------------------------------------------------------- numbers in memory

  function Pow256(n: nat): (p: nat)
    ensures p > 0
  {
    if n == 0 then 1 else 256 * Pow256(n - 1)
  }

  /** An `n`-byte number in network byte order. */
  function ReadBE(mem: Memory, off: int, n: nat): (r: nat)
    ensures r < Pow256(n)
  {
    if n == 0 then 0 else ReadBE(mem, off, n - 1) * 256 + (mem(off + n - 1) as int)
  }

  lemma Pow256Sixteen()
    ensures Pow256(2) == 0x1_0000
    ensures Pow256(16) == 0x1_0000_0000_0000_0000_0000_0000_0000_0000
  {
    assert Pow256(4) == 0x1_0000_0000;
    assert Pow256(6) == 0x1_0000_0000_0000;
    assert Pow256(8) == 0x1_0000_0000_0000_0000;
    assert Pow256(10) == 0x1_0000_0000_0000_0000_0000;
    assert Pow256(12) == 0x1_0000_0000_0000_0000_0000_0000;
    assert Pow256(14) == 0x1_0000_0000_0000_0000_0000_0000_0000;
  }

  function ReadAddr(mem: Memory, off: int): Addr {
    Pow256Sixteen();
    ReadBE(mem, off, 16)
  }

  function WriteBE(a: nat, n: nat): (d: seq<byte>)
    ensures |d| == n
  {
    if n == 0 then [] else WriteBE(a / 256, n - 1) + [a % 256]
  }

  /** Memory holds the bytes `d` at `off`. */
  ghost predicate Holds(mem: Memory, off: int, d: seq<byte>) {
    forall i :: 0 <= i < |d| ==> mem(off + i) == d[i]
  }

  lemma HoldsParts(mem: Memory, off: int, a: seq<byte>, b: seq<byte>)
    requires Holds(mem, off, a + b)
    ensures Holds(mem, off, a) && Holds(mem, off + |a|, b)
  {
    forall i | 0 <= i < |a| ensures mem(off + i) == a[i] {
      assert (a + b)[i] == a[i];
    }
    forall i | 0 <= i < |b| ensures mem(off + |a| + i) == b[i] {
      assert (a + b)[|a| + i] == b[i];
      assert mem(off + (|a| + i)) == b[i];
    }
  }

  /** Reading inverts writing. */
  lemma {:induction false} ReadWritten(mem: Memory, off: int, a: nat, n: nat)
    requires a < Pow256(n) && Holds(mem, off, WriteBE(a, n))
    ensures ReadBE(mem, off, n) == a
  {
    if n > 0 {
      var last: seq<byte> := [a % 256];
      HoldsParts(mem, off, WriteBE(a / 256, n - 1), last);
      ReadWritten(mem, off, a / 256, n - 1);
      assert mem(off + (n - 1) + 0) == last[0];
    }
  }

  // ---------------------------------------------------------------- the parser

  /** The source list `mrec_add_source_addr` builds: `n` addresses from `off` on, each new
      address once, with timer 0. */
  function ReadSources(mem: Memory, off: int, n: nat): seq<Source> {
    if n == 0 then []
    else AddNew(ReadSources(mem, off, n - 1), [Source(ReadAddr(mem, off + 16 * (n - 1)), 0)])
  }

  /** The next `n` records from `off` on, up to the first one that makes the handler give up,
      and where it stopped.  Auxiliary data is skipped by `grec_auxwords` bytes, not words. */
  function ParseFrom(mem: Memory, plen: int, off: int, n: nat): (seq<Applied>, int)
    decreases n
  {
    if n == 0 then ([], off)
    else
      var mca := ReadAddr(mem, off + 4);
      var nsrcs := ReadBE(mem, off + 2, 2);
      var src := off + RECORD_HEADER;
      var t := TypeOf(mem(off));
      if IsLocalMulticast(mca) || off > plen || t.None? || (nsrcs > 0 && src + nsrcs * 16 > plen) then ([], off)
      else
        var (rest, end) := ParseFrom(mem, plen, src + nsrcs * 16 + mem(off + 1), n - 1);
        ([(mca, t.value, ReadSources(mem, src, nsrcs))] + rest, end)
  }

  /** `l4_ipv6_icmpv6_mld2_report` on a payload of `plen` bytes. */
  function Parse(mem: Memory, plen: int): (seq<Applied>, int) {
    var ngrec := ReadBE(mem, 6, 2);
    if REPORT_HEADER + ngrec * RECORD_HEADER > plen then ([], 0)
    else ParseFrom(mem, plen, REPORT_HEADER, ngrec)
  }

  lemma {:induction false} SourcesOnce(mem: Memory, off: int, n: nat)
    ensures DupFree(ReadSources(mem, off, n))
  {
    if n > 0 {
      SourcesOnce(mem, off, n - 1);
      UnionMeaning(ReadSources(mem, off, n - 1), [Source(ReadAddr(mem, off + 16 * (n - 1)), 0)]);
    }
  }

  /** Whatever the packet says, no record reaches the state machine with a source twice, or
      for a group of node-local or link-local scope. */
  lemma {:induction false} ParsedIsClean(mem: Memory, plen: int, off: int, n: nat)
    ensures forall r :: r in ParseFrom(mem, plen, off, n).0 ==> DupFree(r.2) && !IsLocalMulticast(r.0)
    decreases n
  {
    hide ReadBE, ReadAddr, ReadSources, IsLocalMulticast, TypeOf, DupFree;
    if n > 0 {
      var nsrcs := ReadBE(mem, off + 2, 2);
      SourcesOnce(mem, off + RECORD_HEADER, nsrcs);
      ParsedIsClean(mem, plen, off + RECORD_HEADER + nsrcs * 16 + mem(off + 1), n - 1);
    }
  }

  /** Where the handler's loop starts. */
  lemma ParseUnfold(mem: Memory, plen: int)
    ensures var ngrec := ReadBE(mem, 6, 2);
            Parse(mem, plen) ==
            if REPORT_HEADER + ngrec * RECORD_HEADER > plen then ([], 0)
            else Joined([], ParseFrom(mem, plen, REPORT_HEADER, ngrec))
  {
    hide ReadBE, ReadAddr, TypeOf;
    JoinedFirst(ParseFrom(mem, plen, REPORT_HEADER, ReadBE(mem, 6, 2)));
  }

  /** One round of the handler's loop, up to the call of `handle_downstream_subscription`:
      the record at `grec` with its source list as `mrec_create` and `mrec_add_source_addr`
      build it, and where the next one is; None gives up. */
  method NextRecord(mem: Memory, plen: int, grec: int, ghost ngrec: nat)
    returns (r: Option<(Addr, RecType)>, list: SrcList, next: int)
    requires ngrec > 0
    ensures list.Valid() && fresh(list) && fresh(list.Repr)
    ensures ParseFrom(mem, plen, grec, ngrec) ==
            if r.None? then ([], grec)
            else Joined([(r.value.0, r.value.1, View(list.contents))], ParseFrom(mem, plen, next, ngrec - 1))
    ensures r.Some? ==> DupFree(View(list.contents))
  {
    hide ReadBE, ReadAddr, ReadSources, IsLocalMulticast, TypeOf, Pow256, View, List.Valid;
    r, next := None, grec;
    list := new List<Option<Source>>();
    var mca := ReadAddr(mem, grec + 4);
    if IsLocalMulticast(mca) || grec > plen {
      return;
    }
    var nsrcs: nat := ReadBE(mem, grec + 2, 2);
    var src := grec + RECORD_HEADER;
    var t := TypeOf(mem(grec));
    if t.None? || (nsrcs > 0 && src + nsrcs * 16 > plen) {
      return;
    }
    list := ReadSourceList(mem, src, nsrcs);
    SourcesOnce(mem, src, nsrcs);
    r, next := Some((mca, t.value)), src + nsrcs * 16 + mem(grec + 1);
  }

  /** Records already applied, before the outcome of parsing on. */
  function Joined(records: seq<Applied>, p: (seq<Applied>, int)): (seq<Applied>, int) {
    (records + p.0, p.1)
  }

  lemma JoinedFirst(p: (seq<Applied>, int))
    ensures Joined([], p) == p
  {
    assert [] + p.0 == p.0;
  }

  lemma JoinedNext(records: seq<Applied>, r: Applied, p: (seq<Applied>, int))
    ensures Joined(records, Joined([r], p)) == Joined(records + [r], p)
  {
    assert records + ([r] + p.0) == records + [r] + p.0;
  }

  lemma JoinedLast(records: seq<Applied>, end: int)
    ensures Joined(records, ([], end)) == (records, end)
  {
    assert records + [] == records;
  }

  /** The inner loop: `mrec_add_source_addr` for each address. */
  method ReadSourceList(mem: Memory, start: int, count: nat) returns (list: SrcList)
    ensures list.Valid() && fresh(list) && fresh(list.Repr)
    ensures View(list.contents) == ReadSources(mem, start, count) && Nulls(list.contents) == 0
  {
    hide View, Nulls, Addrs, AddNew, ReadAddr, List.Valid;
    NothingYet([], {}, true);
    list := new List<Option<Source>>();
    var src, nsrcs := start, count;
    while nsrcs > 0
      invariant 0 <= nsrcs <= count && src == start + 16 * (count - nsrcs)
      invariant list.Valid() && fresh(list) && fresh(list.Repr)
      invariant View(list.contents) == ReadSources(mem, start, count - nsrcs) && Nulls(list.contents) == 0
    {
      AddIfAbsent(list, Some(Source(ReadAddr(mem, src), 0)));
      src := src + 16;
      nsrcs := nsrcs - 1;
    }
  }

  // ---------------------------------------------------------------- what is read

  /** Where the handler looks for record `k`, counted from the one at `off`. */
  function RecordOffset(mem: Memory, off: int, k: nat): int
    decreases k
  {
    if k == 0 then off
    else RecordOffset(mem, off + RECORD_HEADER + 16 * ReadBE(mem, off + 2, 2) + mem(off + 1), k - 1)
  }

  /** The addresses of `n` consecutive sources. */
  ghost predicate Names(l: seq<Source>, mem: Memory, src: int, n: nat) {
    forall a: Addr :: a in Addrs(l) <==> exists j: nat :: j < n && a == ReadAddr(mem, src + 16 * j)
  }

  lemma {:induction false} SourcesNamed(mem: Memory, src: int, n: nat)
    ensures Names(ReadSources(mem, src, n), mem, src, n)
    ensures forall x :: x in ReadSources(mem, src, n) ==> x.timer == 0
  {
    if n > 0 {
      SourcesNamed(mem, src, n - 1);
      var x := Source(ReadAddr(mem, src + 16 * (n - 1)), 0);
      UnionMeaning(ReadSources(mem, src, n - 1), [x]);
      assert Addrs([x]) == {x.addr} by { assert [x][0] in [x]; }
      hide ReadAddr, AddNew;
    }
  }

  /** Whatever the bytes are: record `k` is applied with the group and type that stand at its
      offset and with the addresses that follow, all of which lie inside the payload. */
  lemma {:induction false} ParsedInside(mem: Memory, plen: int, off: int, n: nat, k: nat)
    requires k < |ParseFrom(mem, plen, off, n).0|
    ensures var r, o := ParseFrom(mem, plen, off, n).0[k], RecordOffset(mem, off, k);
            var nsrcs := ReadBE(mem, o + 2, 2);
            && 1 <= mem(o) <= 6 && KindByte(Of(r.1)) == mem(o) && r.0 == ReadAddr(mem, o + 4)
            && o <= plen && (nsrcs > 0 ==> o + RECORD_HEADER + 16 * nsrcs <= plen)
            && DupFree(r.2) && Names(r.2, mem, o + RECORD_HEADER, nsrcs)
    decreases n
  {
    hide ReadBE, ReadAddr, ReadSources, Names, DupFree, IsLocalMulticast;
    var nsrcs := ReadBE(mem, off + 2, 2);
    if k == 0 {
      SourcesOnce(mem, off + RECORD_HEADER, nsrcs);
      SourcesNamed(mem, off + RECORD_HEADER, nsrcs);
    } else {
      ParsedInside(mem, plen, off + RECORD_HEADER + 16 * nsrcs + mem(off + 1), n - 1, k - 1);
    }
  }

  /** And a report ends early only at a record for a group of local scope, behind the end of the
      payload, of a type other than 1 to 6, or with more sources than the payload holds. */
  lemma {:induction false} ParseStops(mem: Memory, plen: int, off: int, n: nat)
    ensures var (records, end) := ParseFrom(mem, plen, off, n);
            && |records| <= n && end == RecordOffset(mem, off, |records|)
            && var nsrcs := ReadBE(mem, end + 2, 2);
            (|records| < n ==>
              || IsLocalMulticast(ReadAddr(mem, end + 4)) || end > plen || !(1 <= mem(end) <= 6)
              || (nsrcs > 0 && end + RECORD_HEADER + 16 * nsrcs > plen))
    decreases n
  {
    hide ReadBE, ReadAddr, ReadSources, IsLocalMulticast;
    if n > 0 {
      ParseStops(mem, plen, off + RECORD_HEADER + 16 * ReadBE(mem, off + 2, 2) + mem(off + 1), n - 1);
    }
  }

  // ---------------------------------------------------------------- the encoding

  /** A record type of the standard, or a byte that is none. */
  datatype Kind = Of(t: RecType) | Other(code: byte)

  /** RFC 3810, section 5.2.12. */
  function KindByte(k: Kind): byte {
    match k
    case Of(IsIn) => 1
    case Of(IsEx) => 2
    case Of(ToIn) => 3
    case Of(ToEx) => 4
    case Of(Allow) => 5
    case Of(Block) => 6
    case Other(code) => code
  }

  /** A group record as its sender means it; `aux` is auxiliary data. */
  datatype Fields = Fields(kind: Kind, mca: Addr, sources: seq<Addr>, aux: seq<byte>)

  /** What fits into a record. */
  type WireRecord = r: Fields |
    |r.sources| < 0x1_0000 && |r.aux| < 0x100 && (r.kind.Other? ==> !(1 <= r.kind.code <= 6))
    witness Fields(Of(IsIn), 0, [], [])

  function WriteAddrs(l: seq<Addr>): (d: seq<byte>)
    ensures |d| == 16 * |l|
  {
    if l == [] then [] else WriteAddrs(l[..|l| - 1]) + WriteBE(l[|l| - 1], 16)
  }

  /** Number of sources, group, sources. */
  function WriteBody(r: WireRecord): (d: seq<byte>)
    ensures |d| == RECORD_HEADER - 2 + 16 * |r.sources|
  {
    WriteBE(|r.sources|, 2) + WriteBE(r.mca, 16) + WriteAddrs(r.sources)
  }

  /** Type, length of the auxiliary data, the body, auxiliary data.  The length is in bytes, as
      the handler takes it; RFC 3810 counts 32-bit words. */
  function WriteRecord(r: WireRecord): (d: seq<byte>)
    ensures |d| == RECORD_HEADER + 16 * |r.sources| + |r.aux|
  {
    [KindByte(r.kind), |r.aux|] + WriteBody(r) + r.aux
  }

  function WriteRecords(rs: seq<WireRecord>): (d: seq<byte>)
    ensures |d| >= RECORD_HEADER * |rs|
  {
    if rs == [] then [] else WriteRecord(rs[0]) + WriteRecords(rs[1..])
  }

  /** A report: type, reserved, checksum, reserved, number of records, records. */
  function WriteReport(rs: seq<WireRecord>, checksum: word): seq<byte> {
    [143, 0] + WriteBE(checksum, 2) + [0, 0] + WriteBE(|rs|, 2) + WriteRecords(rs)
  }

  function Sourced(l: seq<Addr>): seq<Source> {
    seq(|l|, i requires 0 <= i < |l| => Source(l[i], 0))
  }

  predicate Acceptable(r: WireRecord) {
    !IsLocalMulticast(r.mca) && r.kind.Of?
  }

  /** The longest prefix of acceptable records, each with its sources de-duplicated. */
  function Accepted(rs: seq<WireRecord>): seq<Applied> {
    if rs == [] || !Acceptable(rs[0]) then []
    else [AppliedOf(rs[0])] + Accepted(rs[1..])
  }

  function AppliedOf(r: WireRecord): Applied
    requires Acceptable(r)
  {
    (r.mca, r.kind.t, AddNew([], Sourced(r.sources)))
  }

  lemma {:induction false} ReadWrittenSources(mem: Memory, off: int, l: seq<Addr>)
    requires Holds(mem, off, WriteAddrs(l))
    ensures ReadSources(mem, off, |l|) == AddNew([], Sourced(l))
  {
    if l != [] {
      var n := |l| - 1;
      HoldsParts(mem, off, WriteAddrs(l[..n]), WriteBE(l[n], 16));
      Pow256Sixteen();
      ReadWritten(mem, off + 16 * n, l[n], 16);
      ReadWrittenSources(mem, off, l[..n]);
      assert Sourced(l) == Sourced(l[..n]) + [Source(l[n], 0)];
      AddNewAppend([], Sourced(l[..n]), [Source(l[n], 0)]);
    }
  }

  /** The fields of an encoded record are where the parser looks for them. */
  lemma ReadWrittenBody(mem: Memory, off: int, r: WireRecord)
    requires Holds(mem, off + 2, WriteBody(r))
    ensures ReadBE(mem, off + 2, 2) == |r.sources| && ReadAddr(mem, off + 4) == r.mca
    ensures ReadSources(mem, off + RECORD_HEADER, |r.sources|) == AddNew([], Sourced(r.sources))
  {
    var count, mca, list := WriteBE(|r.sources|, 2), WriteBE(r.mca, 16), WriteAddrs(r.sources);
    HoldsParts(mem, off + 2, count + mca, list);
    HoldsParts(mem, off + 2, count, mca);
    Pow256Sixteen();
    ReadWritten(mem, off + 2, |r.sources|, 2);
    ReadWritten(mem, off + 4, r.mca, 16);
    ReadWrittenSources(mem, off + RECORD_HEADER, r.sources);
  }

  lemma ReadWrittenRecord(mem: Memory, off: int, first: byte, second: byte, r: WireRecord, aux: seq<byte>)
    requires Holds(mem, off, [first, second] + WriteBody(r) + aux)
    ensures mem(off) == first && mem(off + 1) == second
    ensures ReadBE(mem, off + 2, 2) == |r.sources| && ReadAddr(mem, off + 4) == r.mca
    ensures ReadSources(mem, off + RECORD_HEADER, |r.sources|) == AddNew([], Sourced(r.sources))
  {
    var head := [first, second];
    HoldsParts(mem, off, head + WriteBody(r), aux);
    HoldsParts(mem, off, head, WriteBody(r));
    assert mem(off + 0) == head[0] && mem(off + 1) == head[1];
    ReadWrittenBody(mem, off, r);
  }

  /** The handler knows the six types by their bytes, and no other byte. */
  lemma KnownTypes(k: Kind)
    requires k.Other? ==> !(1 <= k.code <= 6)
    ensures TypeOf(KindByte(k)) == if k.Of? then Some(k.t) else None
    ensures k.Other? ==> TypeOf(k.code) == None
  {
  }

  /** One turn of the handler's loop on an encoded record. */
  lemma ParseOne(mem: Memory, plen: int, off: int, n: nat, r: WireRecord)
    requires n > 0 && Holds(mem, off, WriteRecord(r)) && off + |WriteRecord(r)| <= plen
    ensures var (rest, end) := ParseFrom(mem, plen, off + |WriteRecord(r)|, n - 1);
            ParseFrom(mem, plen, off, n) ==
            if Acceptable(r) then ([AppliedOf(r)] + rest, end) else ([], off)
  {
    hide ReadBE, ReadAddr, ReadSources, AddNew, Sourced, IsLocalMulticast, TypeOf, KindByte, Holds;
    assert WriteRecord(r) == [KindByte(r.kind), |r.aux|] + WriteBody(r) + r.aux;
    hide WriteRecord, WriteBody;
    ReadWrittenRecord(mem, off, KindByte(r.kind), |r.aux|, r, r.aux);
    KnownTypes(r.kind);
  }

  lemma ParseStepWritten(mem: Memory, plen: int, off: int, rs: seq<WireRecord>)
    requires rs != [] && Holds(mem, off, WriteRecords(rs)) && off + |WriteRecords(rs)| == plen
    ensures var next, rest := off + |WriteRecord(rs[0])|, rs[1..];
            && Holds(mem, next, WriteRecords(rest)) && next + |WriteRecords(rest)| == plen
            && var (applied, end) := ParseFrom(mem, plen, next, |rest|);
            if Acceptable(rs[0])
            then ParseFrom(mem, plen, off, |rs|) == ([AppliedOf(rs[0])] + applied, end)
                 && Accepted(rs) == [AppliedOf(rs[0])] + Accepted(rest)
            else ParseFrom(mem, plen, off, |rs|) == ([], off) && Accepted(rs) == []
  {
    hide ParseFrom, WriteRecord, AppliedOf, Acceptable;
    HoldsParts(mem, off, WriteRecord(rs[0]), WriteRecords(rs[1..]));
    ParseOne(mem, plen, off, |rs|, rs[0]);
  }

  lemma {:induction false} ParseWritten(mem: Memory, plen: int, off: int, rs: seq<WireRecord>)
    requires Holds(mem, off, WriteRecords(rs)) && off + |WriteRecords(rs)| == plen
    ensures ParseFrom(mem, plen, off, |rs|).0 == Accepted(rs)
    ensures |Accepted(rs)| == |rs| ==> ParseFrom(mem, plen, off, |rs|).1 == plen
    decreases |rs|
  {
    hide ParseFrom, Accepted, Acceptable, AppliedOf, WriteRecord, Holds;
    if rs == [] {
      ParseNone(mem, plen, off);
    } else {
      ParseStepWritten(mem, plen, off, rs);
      ParseWritten(mem, plen, off + |WriteRecord(rs[0])|, rs[1..]);
    }
  }

  lemma ParseNone(mem: Memory, plen: int, off: int)
    ensures ParseFrom(mem, plen, off, 0) == ([], off) && Accepted([]) == []
  {
  }

  /** Parsing inverts encoding: of an encoded list of records the handler applies exactly the
      longest prefix of known types and allowed scope, with those types, in order and
      de-duplicated, and when that is all of them it ends exactly at the end of the payload;
      the memory behind the payload is irrelevant. */
  lemma ParseInvertsWrite(mem: Memory, rs: seq<WireRecord>, checksum: word)
    requires |rs| < 0x1_0000 && Holds(mem, 0, WriteReport(rs, checksum))
    ensures var plen := |WriteReport(rs, checksum)|;
            && Parse(mem, plen).0 == Accepted(rs)
            && (|Accepted(rs)| == |rs| ==> Parse(mem, plen).1 == plen)
  {
    var head: seq<byte> := [143, 0] + WriteBE(checksum, 2) + [0, 0];
    HoldsParts(mem, 0, head + WriteBE(|rs|, 2), WriteRecords(rs));
    HoldsParts(mem, 0, head, WriteBE(|rs|, 2));
    Pow256Sixteen();
    ReadWritten(mem, 6, |rs|, 2);
    ParseWritten(mem, |WriteReport(rs, checksum)|, REPORT_HEADER, rs);
  }

  /** Auxiliary data as the standard has it: the length byte counts `words` 32-bit words.  The
      handler goes on `words` bytes after the sources instead, so inside the data; unless the
      byte there is 1 to 6, nothing after this record is applied. */
  lemma AuxWordsEndReport(mem: Memory, plen: int, off: int, n: nat, r: WireRecord, words: byte, aux: seq<byte>)
    requires n > 0 && Acceptable(r) && 0 < words && |aux| == 4 * words && !(1 <= aux[words] <= 6)
    requires Holds(mem, off, [KindByte(r.kind), words] + WriteBody(r) + aux)
    requires off + |WriteBody(r)| + 2 + |aux| <= plen
    ensures ParseFrom(mem, plen, off, n) == ([AppliedOf(r)], off + RECORD_HEADER + 16 * |r.sources| + words)
  {
    hide ReadBE, ReadAddr, ReadSources, WriteBody, AddNew, Sourced, IsLocalMulticast, TypeOf, KindByte, Holds;
    ReadWrittenRecord(mem, off, KindByte(r.kind), words, r, aux);
    KnownTypes(r.kind);
    AuxByte(mem, off, [KindByte(r.kind), words] + WriteBody(r), aux, words);
    KnownTypes(Other(aux[words]));
    UnknownEnds(mem, plen, off + RECORD_HEADER + 16 * |r.sources| + words, n - 1);
    assert [AppliedOf(r)] + [] == [AppliedOf(r)];
  }

  lemma AuxByte(mem: Memory, off: int, d: seq<byte>, aux: seq<byte>, k: nat)
    requires Holds(mem, off, d + aux) && k < |aux|
    ensures mem(off + |d| + k) == aux[k]
  {
    HoldsParts(mem, off, d, aux);
  }

  lemma UnknownEnds(mem: Memory, plen: int, off: int, n: nat)
    requires TypeOf(mem(off)).None?
    ensures ParseFrom(mem, plen, off, n) == ([], off)
  {
    hide ReadBE, ReadAddr, ReadSources, IsLocalMulticast, TypeOf;
  }
}
