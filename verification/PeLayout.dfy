/** A PE file as its parts: what lies around the checksum field and the directory entry, and
    what is appended. Every image the writers produce is such a layout. */
module PeLayout {
  import opened Bytes
  import opened Checksum
  import opened Files
  import opened PeFormat

  /** Before the checksum field, between it and the directory entry, and from there to the
      end of the data. */
  datatype Parts = Parts(head: bytes, mid: bytes, rest: bytes)

  function Size(p: Parts): nat {
    |p.head| + 4 + |p.mid| + 8 + |p.rest|
  }

  function Layout(p: Parts, sum: bytes, dir: bytes, tail: bytes): bytes {
    p.head + sum + p.mid + dir + p.rest + tail
  }

  /** The parts padded to a multiple of eight octets. */
  function Aligned(p: Parts): (q: Parts)
    ensures Size(q) == Size(p) + Pad8(Size(p))
  {
    p.(rest := p.rest + Zeros(Pad8(Size(p))))
  }

  /** How the offsets of a parsed file lie; the parser's own results always satisfy it. */
  predicate Offsets(pe: PeInfo, n: nat) {
    && 132 <= pe.checksumOffset == pe.headerSize + 88
    && pe.certTableOffset == pe.headerSize + 152 + (if pe.pe32plus then 16 else 0)
    && pe.fileend == n && DataEnd(pe) <= n
    && (pe.sigpos == 0 <==> pe.siglen == 0) && (pe.sigpos > 0 ==> pe.sigpos + pe.siglen == n)
    && pe.headerSize + 176 <= n
  }

  /** The parser accepts the file, and the headers it demands lie before any signature. An
      unsigned file always satisfies the latter. */
  predicate WellPlaced(data: bytes, pe: PeInfo) {
    |data| < U32 && ParsePe(data) == Ok(pe) && Offsets(pe, |data|) && pe.headerSize + 176 <= DataEnd(pe)
  }

  lemma ParsedOffsets(data: bytes, pe: PeInfo)
    requires |data| < U32 && ParsePe(data) == Ok(pe)
    ensures Offsets(pe, |data|)
  {
  }

  lemma UnsignedIsWellPlaced(data: bytes, pe: PeInfo)
    requires |data| < U32 && ParsePe(data) == Ok(pe) && pe.sigpos == 0
    ensures WellPlaced(data, pe)
  {
  }

  function PartsOf(data: bytes, pe: PeInfo): Parts
    requires Offsets(pe, |data|) && pe.headerSize + 176 <= DataEnd(pe)
  {
    Parts(data[..pe.checksumOffset],
          data[pe.checksumOffset + 4..pe.certTableOffset],
          data[pe.certTableOffset + 8..DataEnd(pe)])
  }

  predicate PartsFit(p: Parts, pe: PeInfo) {
    |p.head| == pe.checksumOffset && |p.head| + 4 + |p.mid| == pe.certTableOffset
  }

  /** A file is the layout of its parts with its own fields and its own signature region. */
  lemma FileIsLayout(data: bytes, pe: PeInfo)
    requires Offsets(pe, |data|) && pe.headerSize + 176 <= DataEnd(pe)
    ensures var p := PartsOf(data, pe);
      && PartsFit(p, pe) && Size(p) == DataEnd(pe)
      && data == Layout(p, data[pe.checksumOffset..pe.checksumOffset + 4],
                        data[pe.certTableOffset..pe.certTableOffset + 8], data[DataEnd(pe)..])
  {
  }

  // ------------------------------------------------------------- what the parser accepts

  function U32At(data: bytes, at: nat): (n: nat)
    requires at + 4 <= |data|
    ensures n < U32
  {
    data[at] as int + 0x100 * data[at + 1] as int + 0x1_0000 * data[at + 2] as int + 0x100_0000 * data[at + 3] as int
  }

  /** The length as the parser sees it, in 32 bits. */
  function Length32(data: bytes): (n: nat)
    ensures n <= |data|
  {
    |data| % U32
  }

  /** "MZ", and the offset of the PE header inside the file. */
  predicate HasDosHeader(data: bytes) {
    64 <= Length32(data) && data[0] == 0x4D && data[1] == 0x5A && 44 <= U32At(data, 0x3C) <= Length32(data)
  }

  /** "PE\0\0" and 176 octets from there on, the optional header a PE32 or PE32+ one with at
      least five directories. */
  predicate HasPeHeader(data: bytes, h: nat) {
    && h + 176 <= Length32(data)
    && data[h] == 0x50 && data[h + 1] == 0x45 && data[h + 2] == 0 && data[h + 3] == 0
    && data[h + 24] == 0x0B
    && ((data[h + 25] == 0x01 && U32At(data, h + 116) >= 5) || (data[h + 25] == 0x02 && U32At(data, h + 132) >= 5))
  }

  /** The certificate directory entry, the fifth. */
  function EntryAt(data: bytes, h: nat): nat
    requires HasPeHeader(data, h)
  {
    if data[h + 25] == 0x02 then h + 168 else h + 152
  }

  /** The entry points into the file, and its position and length add up to 2^32 or more. */
  predicate EntryOverflows(data: bytes, h: nat)
    requires HasPeHeader(data, h)
  {
    var pos, len := U32At(data, EntryAt(data, h)), U32At(data, EntryAt(data, h) + 4);
    0 < pos < Length32(data) && 0 < len && pos + len >= U32
  }

  /** What the parser finds: an entry that does not end with the file is no entry. */
  function FoundInfo(data: bytes, h: nat): PeInfo
    requires HasPeHeader(data, h)
  {
    var n, at := Length32(data), EntryAt(data, h);
    var pos, len := U32At(data, at), U32At(data, at + 4);
    var trailing := 0 < pos && 0 < len && pos + len == n;
    PeInfo(data[h + 25] == 0x02, h, h + 88, at, if trailing then pos else 0, if trailing then len else 0, n)
  }

  /** On every sequence of octets: what the parser accepts and what it then finds, when it
      rejects the file, and when a 32-bit sum aborts it. It never reads past the end. */
  lemma ParseIsExact(data: bytes)
    ensures ParsePe(data).Ok? <==>
      HasDosHeader(data) && var h := U32At(data, 0x3C); HasPeHeader(data, h) && !EntryOverflows(data, h)
    ensures ParsePe(data).Ok? ==> ParsePe(data).value == FoundInfo(data, U32At(data, 0x3C))
    ensures ParsePe(data) == Err(ArithmeticOverflow) <==>
      && HasDosHeader(data)
      && var h := U32At(data, 0x3C); h + 176 >= U32 || (HasPeHeader(data, h) && EntryOverflows(data, h))
    ensures ParsePe(data).Err? ==> ParsePe(data).error in {InvalidPe, ArithmeticOverflow}
  {
    hide EntryOverflows, FoundInfo, ParseHeaders, Read32;
    HeadersAreExact(data);
    if HasDosHeader(data) && HasPeHeader(data, U32At(data, 0x3C)) {
      EntryIsExact(data, U32At(data, 0x3C));
    }
  }

  lemma ReadsAt(data: bytes, at: nat)
    requires at + 4 <= |data|
    ensures Read32(data, at) == Ok(U32At(data, at))
  {
  }

  lemma HeadersAreExact(data: bytes)
    ensures ParseHeaders(data).Ok? <==> HasDosHeader(data) && HasPeHeader(data, U32At(data, 0x3C))
    ensures ParseHeaders(data).Ok? ==>
      var h := U32At(data, 0x3C); ParseHeaders(data).value == Headers(h, data[h + 25] == 0x02)
    ensures ParseHeaders(data) == Err(ArithmeticOverflow) <==>
      HasDosHeader(data) && U32At(data, 0x3C) + 176 >= U32
    ensures ParseHeaders(data).Err? ==> ParseHeaders(data).error in {InvalidPe, ArithmeticOverflow}
  {
    if 64 <= Length32(data) {
      ReadsAt(data, 0x3C);
      var h := U32At(data, 0x3C);
      if h + 176 <= Length32(data) {
        ReadsAt(data, h);
        ReadsAt(data, h + 116);
        ReadsAt(data, h + 132);
      }
    }
  }

  lemma EntryIsExact(data: bytes, h: nat)
    requires HasPeHeader(data, h) && ParseHeaders(data) == Ok(Headers(h, data[h + 25] == 0x02))
    ensures ParsePe(data) == if EntryOverflows(data, h) then Err(ArithmeticOverflow) else Ok(FoundInfo(data, h))
  {
    hide Read32, U32At, ParseHeaders;
    ReadsAt(data, EntryAt(data, h));
    ReadsAt(data, EntryAt(data, h) + 4);
  }

  // ------------------------------------------------------------------- slices of a layout

  lemma LayoutSlices(p: Parts, sum: bytes, dir: bytes, tail: bytes)
    requires |sum| == 4 && |dir| == 8
    ensures var e, co, ct := Layout(p, sum, dir, tail), |p.head|, |p.head| + 4 + |p.mid|;
      && |e| == Size(p) + |tail|
      && e[..co] == p.head && e[co..co + 4] == sum && e[co + 4..ct] == p.mid && e[ct..ct + 8] == dir
      && e[ct + 8..Size(p)] == p.rest && e[Size(p)..] == tail
  {
    var e := Layout(p, sum, dir, tail);
    assert e == p.head + (sum + p.mid + dir + p.rest + tail);
    assert e == (p.head + sum) + (p.mid + dir + p.rest + tail);
    assert e == (p.head + sum + p.mid) + (dir + p.rest + tail);
    assert e == (p.head + sum + p.mid + dir) + (p.rest + tail);
    assert e == (p.head + sum + p.mid + dir + p.rest) + tail;
  }

  lemma PatchSum(p: Parts, sum: bytes, dir: bytes, tail: bytes, b: bytes)
    requires |sum| == |b| == 4
    ensures WriteAt(Layout(p, sum, dir, tail), |p.head|, b) == Layout(p, b, dir, tail)
  {
    var z := p.mid + dir + p.rest + tail;
    assert Layout(p, sum, dir, tail) == p.head + sum + z;
    assert Layout(p, b, dir, tail) == p.head + b + z;
    WriteAtMiddle(p.head, sum, z, b);
  }

  lemma PatchDir(p: Parts, sum: bytes, dir: bytes, tail: bytes, b: bytes)
    requires |sum| == 4 && |dir| == |b| == 8
    ensures WriteAt(Layout(p, sum, dir, tail), |p.head| + 4 + |p.mid|, b) == Layout(p, sum, b, tail)
  {
    var x, z := p.head + sum + p.mid, p.rest + tail;
    assert Layout(p, sum, dir, tail) == x + dir + z;
    assert Layout(p, sum, b, tail) == x + b + z;
    WriteAtMiddle(x, dir, z, b);
  }

  /** The digest stream of a layout is its parts and the alignment zeros. */
  lemma DigestOfLayout(p: Parts, sum: bytes, dir: bytes, tail: bytes, pe: PeInfo)
    requires |sum| == 4 && |dir| == 8 && PartsFit(p, pe) && DataEnd(pe) == Size(p)
    ensures DigestStream(Layout(p, sum, dir, tail), pe) == p.head + p.mid + p.rest + Zeros(Pad8(Size(p)))
  {
    LayoutSlices(p, sum, dir, tail);
    var e := Layout(p, sum, dir, tail);
    assert Clip(e, 0, |p.head|) == e[..|p.head|];
  }

  // ----------------------------------------------------------------------- the two writers

  lemma StrippedLayout(data: bytes, pe: PeInfo)
    requires Offsets(pe, |data|) && pe.headerSize + 176 <= DataEnd(pe)
    ensures PartsFit(PartsOf(data, pe), pe) && Size(PartsOf(data, pe)) == DataEnd(pe)
    ensures Stripped(data, pe) == Layout(PartsOf(data, pe), Zeros(4), Zeros(8), [])
  {
    hide PartsOf, Layout, Clip;
    FileIsLayout(data, pe);
    StrippedOverLayout([], data, pe);
    var p := PartsOf(data, pe);
    assert WriteAt([], 0, Clip(data, 0, DataEnd(pe))) == Clip(data, 0, DataEnd(pe));
    assert p.rest + [] == p.rest;
  }

  /** The directory entry of a signed image. */
  function Directory(p: Parts, der: bytes): (d: bytes)
    ensures |d| == 8
  {
    Le32(Size(Aligned(p)) % U32) + CertEntry(der)[..4]
  }

  lemma CertificateLayout(p: Parts, pe: PeInfo, der: bytes)
    requires PartsFit(p, pe)
    ensures WithCertificate(Layout(p, Zeros(4), Zeros(8), []), pe, der)
         == Layout(Aligned(p), Zeros(4), Directory(p, der), CertEntry(der))
  {
    hide CertEntry, Le32;
    var stripped := Layout(p, Zeros(4), Zeros(8), []);
    assert |stripped| == Size(p);
    var q := Aligned(p);
    assert stripped + Zeros(Pad8(Size(p))) == Layout(q, Zeros(4), Zeros(8), []);
    assert Layout(q, Zeros(4), Zeros(8), []) + CertEntry(der) == Layout(q, Zeros(4), Zeros(8), CertEntry(der));
    PatchDir(q, Zeros(4), Zeros(8), CertEntry(der), Directory(p, der));
  }

  lemma AlignedTwice(p: Parts)
    ensures Aligned(Aligned(p)) == Aligned(p)
  {
    var q := Aligned(p);
    Pad8Aligns(Size(p));
    assert q.rest + Zeros(0) == q.rest;
  }

  /** What signing produces depends on the input's parts only. */
  function SignedOf(p: Parts, pe: PeInfo, der: bytes): Result<bytes> {
    Summed(Layout(Aligned(p), Zeros(4), Directory(p, der), CertEntry(der)), pe)
  }

  lemma SignedIsOfParts(data: bytes, pe: PeInfo, der: bytes)
    requires Offsets(pe, |data|) && pe.headerSize + 176 <= DataEnd(pe)
    ensures PartsFit(PartsOf(data, pe), pe)
    ensures SignedImage(data, pe, der) == SignedOf(PartsOf(data, pe), pe, der)
  {
    hide CertEntry, Le32, WithCertificate, Stripped, Summed;
    StrippedLayout(data, pe);
    CertificateLayout(PartsOf(data, pe), pe, der);
  }

  /** What an output held beyond the copied data is kept. */
  function Leftover(before: bytes, pe: PeInfo): bytes {
    if |before| > DataEnd(pe) then before[DataEnd(pe)..] else []
  }

  /** An output that is not truncated: what it held beyond the copied data becomes part of the
      written file, before the signature and under the digest. */
  lemma LeftoverIsSigned(before: bytes, data: bytes, pe: PeInfo, der: bytes)
    requires Offsets(pe, |data|) && pe.headerSize + 176 <= DataEnd(pe)
    ensures var p := PartsOf(data, pe);
      SignedOver(before, data, pe, der) == SignedOf(p.(rest := p.rest + Leftover(before, pe)), pe, der)
  {
    hide CertEntry, Le32, WithCertificate, Summed, StrippedOver, Layout, PartsOf;
    var p := PartsOf(data, pe);
    StrippedOverLayout(before, data, pe);
    FileIsLayout(data, pe);
    CertificateLayout(p.(rest := p.rest + Leftover(before, pe)), pe, der);
  }

  lemma StrippedOverLayout(before: bytes, data: bytes, pe: PeInfo)
    requires Offsets(pe, |data|) && pe.headerSize + 176 <= DataEnd(pe)
    ensures var p := PartsOf(data, pe);
      StrippedOver(before, data, pe) == Layout(p.(rest := p.rest + Leftover(before, pe)), Zeros(4), Zeros(8), [])
  {
    hide PartsOf, WriteAt, Layout;
    FileIsLayout(data, pe);
    var p := PartsOf(data, pe);
    var q := p.(rest := p.rest + Leftover(before, pe));
    var sum, dir := data[pe.checksumOffset..pe.checksumOffset + 4], data[pe.certTableOffset..pe.certTableOffset + 8];
    CopiedLayout(before, data, pe);
    PatchSum(q, sum, dir, [], Zeros(4));
    PatchDir(q, Zeros(4), dir, [], Zeros(8));
  }

  lemma CopiedLayout(before: bytes, data: bytes, pe: PeInfo)
    requires Offsets(pe, |data|) && pe.headerSize + 176 <= DataEnd(pe)
    ensures var p := PartsOf(data, pe);
      WriteAt(before, 0, Clip(data, 0, DataEnd(pe))) ==
        Layout(p.(rest := p.rest + Leftover(before, pe)), data[pe.checksumOffset..pe.checksumOffset + 4],
               data[pe.certTableOffset..pe.certTableOffset + 8], [])
  {
    hide PartsOf, Layout;
    FileIsLayout(data, pe);
    var p := PartsOf(data, pe);
    var sum, dir := data[pe.checksumOffset..pe.checksumOffset + 4], data[pe.certTableOffset..pe.certTableOffset + 8];
    LayoutSplits(p, sum, dir, data[DataEnd(pe)..], Leftover(before, pe));
    assert Clip(data, 0, DataEnd(pe)) == data[..DataEnd(pe)];
    assert WriteAt(before, 0, data[..DataEnd(pe)]) == data[..DataEnd(pe)] + Leftover(before, pe);
  }

  /** The data of a layout, with something else behind it. */
  lemma LayoutSplits(p: Parts, sum: bytes, dir: bytes, tail: bytes, more: bytes)
    requires |sum| == 4 && |dir| == 8
    ensures Layout(p, sum, dir, tail)[..Size(p)] + more == Layout(p.(rest := p.rest + more), sum, dir, [])
  {
    var d := p.head + sum + p.mid + dir + p.rest;
    assert Layout(p, sum, dir, tail)[..Size(p)] == d;
    assert Layout(p.(rest := p.rest + more), sum, dir, []) == p.head + sum + p.mid + dir + (p.rest + more);
  }

  /** Both writers end by storing a checksum over zeros; nothing else changes. */
  lemma SummedLayout(p: Parts, pe: PeInfo, dir: bytes, tail: bytes) returns (sum: nat)
    requires PartsFit(p, pe) && |dir| == 8 && Size(p) + |tail| + 0xFFFF < U32
    ensures sum < U32 && PeChecksum(Layout(p, Zeros(4), dir, tail), pe.checksumOffset) == Ok(sum)
    ensures Summed(Layout(p, Zeros(4), dir, tail), pe) == Ok(Layout(p, Le32(sum), dir, tail))
  {
    hide Le32;
    var d := Layout(p, Zeros(4), dir, tail);
    ChecksumOfWords(d, pe.checksumOffset);
    sum := PeChecksum(d, pe.checksumOffset).value;
    PatchSum(p, Zeros(4), dir, tail, Le32(sum));
  }

  // ------------------------------------------------------------------------------ reparsing

  /** The header checks read nothing in the two patched fields. */
  lemma HeadersAgree(d: bytes, e: bytes, h: Headers)
    requires |d| < U32 && |e| < U32 && ParseHeaders(d) == Ok(h)
    requires h.headerSize + 176 <= |e|
    requires d[..ChecksumOffset(h)] == e[..ChecksumOffset(h)]
    requires d[ChecksumOffset(h) + 4..CertTableOffset(h)] == e[ChecksumOffset(h) + 4..CertTableOffset(h)]
    ensures ParseHeaders(e) == Ok(h)
  {
    hide Read16, Read32;
    var co, ct, n := ChecksumOffset(h), CertTableOffset(h), h.headerSize;
    SameSlice(d, e, 0, co, 0, 2);
    SameSlice(d, e, 0, co, 0x3C, 0x40);
    SameSlice(d, e, 0, co, n, n + 4);
    SameSlice(d, e, 0, co, n + 24, n + 26);
    var plus := if h.pe32plus then 16 else 0;
    SameSlice(d, e, co + 4, ct, n + 116 + plus, n + 120 + plus);
    Read16Local(d, e, 0);
    Read32Local(d, e, 0x3C);
    Read32Local(d, e, n);
    Read16Local(d, e, n + 24);
    Read32Local(d, e, n + 116 + plus);
  }

  lemma SameSlice(d: bytes, e: bytes, lo: nat, hi: nat, a: nat, b: nat)
    requires lo <= a <= b <= hi <= |d| && hi <= |e| && d[lo..hi] == e[lo..hi]
    ensures d[a..b] == e[a..b]
  {
    forall i | a <= i < b ensures d[i] == e[i] {
      assert d[i] == d[lo..hi][i - lo] == e[lo..hi][i - lo] == e[i];
    }
  }

  /** Re-parsing a layout over the same head and middle finds the same headers, and the
      directory entry it was given. */
  lemma ParseOfLayout(data: bytes, pe: PeInfo, p: Parts, sum: bytes, sigpos: nat, siglen: nat, tail: bytes)
    requires WellPlaced(data, pe)
    requires PartsFit(p, pe) && p.head == data[..pe.checksumOffset]
    requires p.mid == data[pe.checksumOffset + 4..pe.certTableOffset]
    requires |sum| == 4 && sigpos < U32 && siglen < U32
    requires pe.headerSize + 176 <= Size(p) && Size(p) + |tail| < U32
    requires sigpos == siglen == 0 == |tail| || (sigpos == Size(p) && siglen == |tail| > 0)
    ensures ParsePe(Layout(p, sum, Le32(sigpos) + Le32(siglen), tail))
         == Ok(pe.(sigpos := sigpos, siglen := siglen, fileend := Size(p) + |tail|))
  {
    hide Le32, Read32, Layout, ParseHeaders;
    ParsedOffsets(data, pe);
    var dir := Le32(sigpos) + Le32(siglen);
    var e := Layout(p, sum, dir, tail);
    LayoutSlices(p, sum, dir, tail);
    var h := ParseHeaders(data).value;
    HeadersAgree(data, e, h);
    ReadDirectory(p, sum, sigpos, siglen, tail);
  }

  lemma ReadDirectory(p: Parts, sum: bytes, sigpos: nat, siglen: nat, tail: bytes)
    requires |sum| == 4 && sigpos < U32 && siglen < U32
    ensures var e, ct := Layout(p, sum, Le32(sigpos) + Le32(siglen), tail), |p.head| + 4 + |p.mid|;
      Read32(e, ct) == Ok(sigpos) && Read32(e, ct + 4) == Ok(siglen)
  {
    hide Le32, Read32;
    var x, z := p.head + sum + p.mid, p.rest + tail;
    var e := Layout(p, sum, Le32(sigpos) + Le32(siglen), tail);
    assert e == x + Le32(sigpos) + (Le32(siglen) + z);
    assert e == (x + Le32(sigpos)) + Le32(siglen) + z;
    Le32Reads(x, sigpos, Le32(siglen) + z);
    Le32Reads(x + Le32(sigpos), siglen, z);
  }
}
