/** What the PE writers promise, over whole files and over sequences of operations. */
module PeLaws {
  import opened Bytes
  import opened Checksum
  import opened Files
  import opened PeFormat
  import opened PeLayout

  /** Signing with `der` keeps every 32-bit sum in range. */
  predicate Fits(pe: PeInfo, der: bytes) {
    DataEnd(pe) + 8 + |CertEntry(der)| + 0xFFFF < U32
  }

  lemma EntrySize(der: bytes)
    ensures |CertEntry(der)| == 8 + |der| + Pad8(|der|)
  {
  }

  /** The header info of the signed file, known before it is parsed. */
  function SignedInfo(pe: PeInfo, der: bytes): PeInfo {
    var end := DataEnd(pe) + Pad8(DataEnd(pe));
    pe.(sigpos := end, siglen := |CertEntry(der)|, fileend := end + |CertEntry(der)|)
  }

  function UnsignedInfo(pe: PeInfo): PeInfo {
    pe.(sigpos := 0, siglen := 0, fileend := DataEnd(pe))
  }

  /** The parts of an image are the padded parts of the file it was made from. */
  lemma PartsOfLayout(p: Parts, sum: bytes, dir: bytes, tail: bytes, pe: PeInfo)
    requires |sum| == 4 && |dir| == 8 && PartsFit(p, pe) && DataEnd(pe) == Size(p)
    requires Offsets(pe, Size(p) + |tail|) && pe.headerSize + 176 <= DataEnd(pe)
    ensures |Layout(p, sum, dir, tail)| == Size(p) + |tail|
    ensures PartsOf(Layout(p, sum, dir, tail), pe) == p
  {
    LayoutSlices(p, sum, dir, tail);
  }

  /** Everything about a signed file: it is written, it re-parses to the predicted info with
      the signature at the aligned end of the data, and its parts are the input's, padded. */
  lemma SignedFile(data: bytes, pe: PeInfo, der: bytes) returns (sum: nat)
    requires WellPlaced(data, pe) && Fits(pe, der)
    ensures PartsFit(PartsOf(data, pe), pe)
    ensures sum < U32 && SignedImage(data, pe, der).Ok?
    ensures var p := PartsOf(data, pe);
      && SignedImage(data, pe, der).value == Layout(Aligned(p), Le32(sum), Directory(p, der), CertEntry(der))
      && PeChecksum(Layout(Aligned(p), Zeros(4), Directory(p, der), CertEntry(der)), pe.checksumOffset) == Ok(sum)
    ensures WellPlaced(SignedImage(data, pe, der).value, SignedInfo(pe, der))
    ensures PartsOf(SignedImage(data, pe, der).value, SignedInfo(pe, der)) == Aligned(PartsOf(data, pe))
  {
    hide CertEntry, Le32, Layout, ParsePe, PeChecksum, Summed, PartsOf, SignedImage, Directory;
    FileParts(data, pe);
    var p := PartsOf(data, pe);
    EntrySize(der);
    SignedIsOfParts(data, pe, der);
    var q, dir, entry := Aligned(p), Directory(p, der), CertEntry(der);
    sum := SummedLayout(q, pe, dir, entry);
    SignedReparses(data, pe, der, sum);
  }

  lemma SignedReparses(data: bytes, pe: PeInfo, der: bytes, sum: nat)
    requires WellPlaced(data, pe) && Fits(pe, der)
    ensures var q := Aligned(PartsOf(data, pe));
      var e := Layout(q, Le32(sum), Directory(PartsOf(data, pe), der), CertEntry(der));
      WellPlaced(e, SignedInfo(pe, der)) && PartsOf(e, SignedInfo(pe, der)) == q
  {
    hide CertEntry, Le32, Layout, ParsePe, PartsOf, Directory;
    FileParts(data, pe);
    var p := PartsOf(data, pe);
    var q, dir, entry := Aligned(p), Directory(p, der), CertEntry(der);
    EntrySize(der);
    DirectoryValue(p, der);
    ParseOfLayout(data, pe, q, Le32(sum), Size(q), |entry|, entry);
    PartsOfLayout(q, Le32(sum), dir, entry, SignedInfo(pe, der));
  }

  lemma FileParts(data: bytes, pe: PeInfo)
    requires Offsets(pe, |data|) && pe.headerSize + 176 <= DataEnd(pe)
    ensures var p := PartsOf(data, pe);
      && PartsFit(p, pe) && Size(p) == DataEnd(pe)
      && p.head == data[..pe.checksumOffset] && p.mid == data[pe.checksumOffset + 4..pe.certTableOffset]
      && DigestStream(data, pe) == p.head + p.mid + p.rest + Zeros(Pad8(Size(p)))
  {
    hide DigestStream;
    FileIsLayout(data, pe);
    var co, ct := pe.checksumOffset, pe.certTableOffset;
    DigestOfLayout(PartsOf(data, pe), data[co..co + 4], data[ct..ct + 8], data[DataEnd(pe)..], pe);
  }

  lemma DirectoryValue(p: Parts, der: bytes)
    requires Size(Aligned(p)) + |CertEntry(der)| < U32
    ensures Directory(p, der) == Le32(Size(Aligned(p))) + Le32(|CertEntry(der)|)
  {
    hide Le32, Le16;
    EntrySize(der);
    var n := |CertEntry(der)|;
    assert n % U32 == n && (|der| + 8 + Pad8(|der|)) % U32 == n;
    assert CertEntry(der)[..4] == Le32(n);
  }

  // ------------------------------------------------------------------------------- digest

  /** Signing leaves the digest stream unchanged: unsigned or already signed, aligned or not. */
  lemma SigningKeepsDigest(data: bytes, pe: PeInfo, der: bytes)
    requires WellPlaced(data, pe) && Fits(pe, der)
    ensures SignedImage(data, pe, der).Ok?
    ensures ParsePe(SignedImage(data, pe, der).value) == Ok(SignedInfo(pe, der))
    ensures DigestStream(SignedImage(data, pe, der).value, SignedInfo(pe, der)) == DigestStream(data, pe)
  {
    hide CertEntry, Le32, Layout, ParsePe, PeChecksum, PartsOf, DigestStream, SignedImage;
    var sum := SignedFile(data, pe, der);
    FileParts(data, pe);
    FileParts(SignedImage(data, pe, der).value, SignedInfo(pe, der));
    var p := PartsOf(data, pe);
    Pad8Aligns(Size(p));
    assert p.head + p.mid + Aligned(p).rest + Zeros(0) == p.head + p.mid + p.rest + Zeros(Pad8(Size(p)));
  }

  /** Removing a signature succeeds on every signed file, leaves an unsigned one, and keeps
      the digest stream and the parts. */
  lemma RemovingKeepsDigest(data: bytes, pe: PeInfo) returns (sum: nat)
    requires WellPlaced(data, pe) && pe.sigpos > 0 && DataEnd(pe) + 0xFFFF < U32
    ensures UnsignedImage(data, pe).Ok? && WellPlaced(UnsignedImage(data, pe).value, UnsignedInfo(pe))
    ensures DigestStream(UnsignedImage(data, pe).value, UnsignedInfo(pe)) == DigestStream(data, pe)
    ensures PartsOf(UnsignedImage(data, pe).value, UnsignedInfo(pe)) == PartsOf(data, pe)
    ensures sum < U32 && UnsignedImage(data, pe).value == Layout(PartsOf(data, pe), Le32(sum), Zeros(8), [])
    ensures PeChecksum(Layout(PartsOf(data, pe), Zeros(4), Zeros(8), []), pe.checksumOffset) == Ok(sum)
  {
    hide Le32, Layout, ParsePe, PeChecksum, PartsOf, DigestStream, Summed, Stripped;
    FileParts(data, pe);
    var p := PartsOf(data, pe);
    StrippedLayout(data, pe);
    sum := SummedLayout(p, pe, Zeros(8), []);
    assert Zeros(8) == Le32(0) + Le32(0) by { ZeroFields(); }
    ParseOfLayout(data, pe, p, Le32(sum), 0, 0, []);
    var e := Layout(p, Le32(sum), Zeros(8), []);
    PartsOfLayout(p, Le32(sum), Zeros(8), [], UnsignedInfo(pe));
    FileParts(e, UnsignedInfo(pe));
  }

  lemma ZeroFields()
    ensures Zeros(8) == Le32(0) + Le32(0)
  {
  }

  /** Neither in the checksum field nor in the directory entry. */
  predicate Covered(pe: PeInfo, i: nat) {
    && !(pe.checksumOffset <= i < pe.checksumOffset + 4)
    && !(pe.certTableOffset <= i < pe.certTableOffset + 8)
  }

  /** Digest coverage is exact: two files with the same header info have the same stream
      exactly when they agree on every octet outside the two fields and the signature. */
  lemma DigestCoverage(d: bytes, e: bytes, pe: PeInfo)
    requires WellPlaced(d, pe) && WellPlaced(e, pe)
    ensures Offsets(pe, |d|) && |e| == |d|
    ensures DigestStream(d, pe) == DigestStream(e, pe) <==>
      forall i :: 0 <= i < DataEnd(pe) && Covered(pe, i) ==> d[i] == e[i]
  {
    hide ParsePe, PartsOf, DigestStream;
    FileParts(d, pe);
    FileParts(e, pe);
    var p, q := PartsOf(d, pe), PartsOf(e, pe);
    EqualParts(p, q, Zeros(Pad8(Size(p))));
    PartsAgree(d, e, pe);
  }

  lemma EqualParts(p: Parts, q: Parts, pad: bytes)
    requires |p.head| == |q.head| && |p.mid| == |q.mid| && |p.rest| == |q.rest|
    ensures p.head + p.mid + p.rest + pad == q.head + q.mid + q.rest + pad <==> p == q
  {
    var s, t := p.head + p.mid + p.rest + pad, q.head + q.mid + q.rest + pad;
    if s == t {
      var n, m := |p.head|, |p.head| + |p.mid|;
      assert p.head == s[..n] == q.head && p.mid == s[n..m] == q.mid;
      assert p.rest == s[m..m + |p.rest|] == q.rest;
    }
  }

  lemma PartsAgree(d: bytes, e: bytes, pe: PeInfo)
    requires |d| == |e| && Offsets(pe, |d|) && pe.headerSize + 176 <= DataEnd(pe)
    ensures PartsOf(d, pe) == PartsOf(e, pe) <==>
      forall i :: 0 <= i < DataEnd(pe) && Covered(pe, i) ==> d[i] == e[i]
  {
    var p, q := PartsOf(d, pe), PartsOf(e, pe);
    var co, ct := pe.checksumOffset, pe.certTableOffset;
    if p == q {
      forall i | 0 <= i < DataEnd(pe) && Covered(pe, i) ensures d[i] == e[i] {
        if i < co {
          assert d[i] == p.head[i] == q.head[i] == e[i];
        } else if i < ct {
          assert d[i] == p.mid[i - co - 4] == q.mid[i - co - 4] == e[i];
        } else {
          assert d[i] == p.rest[i - ct - 8] == q.rest[i - ct - 8] == e[i];
        }
      }
    }
  }

  /** The fields that fix the offsets lie in the head. */
  lemma HeadFixesOffsets(data: bytes, pe: PeInfo)
    requires |data| < U32 && ParsePe(data) == Ok(pe)
    ensures pe.checksumOffset == pe.headerSize + 88 && pe.headerSize >= 44 && pe.checksumOffset <= |data|
    ensures Read32(data[..pe.checksumOffset], 0x3C) == Ok(pe.headerSize)
    ensures Read16(data[..pe.checksumOffset], pe.headerSize + 24)
         == Ok(if pe.pe32plus then PE32PLUS_MAGIC else PE32_MAGIC)
  {
    hide Read16, Read32;
    var n := pe.checksumOffset;
    var head := data[..n];
    assert data[0..n] == head[0..n];
    SameSlice(data, head, 0, n, 0x3C, 0x40);
    SameSlice(data, head, 0, n, pe.headerSize + 24, pe.headerSize + 26);
    Read32Local(data, head, 0x3C);
    Read16Local(data, head, pe.headerSize + 24);
  }

  /** Files with equal digest streams have equal offsets: the header offset and the magic are
      themselves digested. */
  lemma EqualStreamsEqualOffsets(d: bytes, pd: PeInfo, e: bytes, pe: PeInfo)
    requires WellPlaced(d, pd) && WellPlaced(e, pe) && DigestStream(d, pd) == DigestStream(e, pe)
    ensures pd.headerSize == pe.headerSize && pd.pe32plus == pe.pe32plus
  {
    hide ParsePe, PartsOf, DigestStream, Read16, Read32;
    HeadInStream(d, pd);
    HeadInStream(e, pe);
  }

  /** The digest stream itself tells the header offset and the magic. */
  lemma HeadInStream(data: bytes, pe: PeInfo)
    requires WellPlaced(data, pe)
    ensures Read32(DigestStream(data, pe), 0x3C) == Ok(pe.headerSize)
    ensures Read16(DigestStream(data, pe), pe.headerSize + 24)
         == Ok(if pe.pe32plus then PE32PLUS_MAGIC else PE32_MAGIC)
  {
    hide ParsePe, PartsOf, DigestStream, Read16, Read32;
    FileParts(data, pe);
    HeadFixesOffsets(data, pe);
    var head, s := PartsOf(data, pe).head, DigestStream(data, pe);
    assert |head| == pe.checksumOffset >= 132 && |s| >= |head|;
    assert s[0..|head|] == head[0..|head|];
    SameSlice(s, head, 0, |head|, 0x3C, 0x40);
    SameSlice(s, head, 0, |head|, pe.headerSize + 24, pe.headerSize + 26);
    Read32Local(s, head, 0x3C);
    Read16Local(s, head, pe.headerSize + 24);
  }

  /** Across any two files, whatever their headers, lengths and signatures: the streams are
      equal exactly when the padded parts are. */
  lemma StreamsTellPartsApart(d: bytes, pd: PeInfo, e: bytes, pe: PeInfo)
    requires WellPlaced(d, pd) && WellPlaced(e, pe)
    ensures DigestStream(d, pd) == DigestStream(e, pe) <==> Aligned(PartsOf(d, pd)) == Aligned(PartsOf(e, pe))
    ensures DigestStream(d, pd) == DigestStream(e, pe) ==>
      pd.headerSize == pe.headerSize && pd.pe32plus == pe.pe32plus
  {
    hide ParsePe, PartsOf, DigestStream;
    FileParts(d, pd);
    FileParts(e, pe);
    var p, q := Aligned(PartsOf(d, pd)), Aligned(PartsOf(e, pe));
    assert DigestStream(d, pd) == p.head + p.mid + p.rest + [];
    assert DigestStream(e, pe) == q.head + q.mid + q.rest + [];
    if DigestStream(d, pd) == DigestStream(e, pe) {
      EqualStreamsEqualOffsets(d, pd, e, pe);
      EqualParts(p, q, []);
    }
  }

  // ------------------------------------------------------------------- repeated operations

  /** The header info only lends its offsets to an image made of parts. */
  lemma SignedOfShifted(p: Parts, pe: PeInfo, info: PeInfo, der: bytes)
    requires info.checksumOffset == pe.checksumOffset
    ensures SignedOf(Aligned(p), info, der) == SignedOf(p, pe, der)
  {
    hide CertEntry, Le32, Layout, PeChecksum, WriteAt;
    AlignedTwice(p);
  }

  /** The last signature wins: signing again gives the file signing once would have given. */
  lemma LastSignatureWins(data: bytes, pe: PeInfo, s1: bytes, s2: bytes)
    requires WellPlaced(data, pe) && Fits(pe, s1)
    ensures SignedImage(data, pe, s1).Ok?
    ensures SignedImage(SignedImage(data, pe, s1).value, SignedInfo(pe, s1), s2) == SignedImage(data, pe, s2)
  {
    hide CertEntry, Le32, Layout, ParsePe, PeChecksum, PartsOf, SignedImage, SignedOf;
    var sum := SignedFile(data, pe, s1);
    var once, info := SignedImage(data, pe, s1).value, SignedInfo(pe, s1);
    SignedIsOfParts(data, pe, s2);
    SignedIsOfParts(once, info, s2);
    SignedOfShifted(PartsOf(data, pe), pe, info, s2);
  }

  /** Sign, remove, sign: the same file again. */
  lemma RemoveThenSign(data: bytes, pe: PeInfo, s1: bytes, s2: bytes)
    requires WellPlaced(data, pe) && Fits(pe, s1)
    ensures SignedImage(data, pe, s1).Ok?
    ensures var once, info := SignedImage(data, pe, s1).value, SignedInfo(pe, s1);
      && UnsignedImage(once, info).Ok?
      && ParsePe(UnsignedImage(once, info).value) == Ok(UnsignedInfo(info))
      && SignedImage(UnsignedImage(once, info).value, UnsignedInfo(info), s2) == SignedImage(data, pe, s2)
  {
    hide CertEntry, Le32, Layout, ParsePe, PeChecksum, PartsOf, SignedImage, UnsignedImage, SignedOf;
    var sum := SignedFile(data, pe, s1);
    var once, info := SignedImage(data, pe, s1).value, SignedInfo(pe, s1);
    var sum2 := RemovingKeepsDigest(once, info);
    var plain := UnsignedImage(once, info).value;
    SignedIsOfParts(data, pe, s2);
    SignedIsOfParts(plain, UnsignedInfo(info), s2);
    SignedOfShifted(PartsOf(data, pe), pe, UnsignedInfo(info), s2);
  }

  // ----------------------------------------------------------------------- embed and extract

  /** A certificate entry is found by the walk and gives back the signature and its padding. */
  lemma WalkFindsEntry(x: bytes, der: bytes, pe: PeInfo)
    requires pe.sigpos == |x| > 0 && pe.siglen == |CertEntry(der)| && |x| + |CertEntry(der)| < U32
    ensures ExtractSignature(x + CertEntry(der), pe) == Ok(Some(der + Zeros(Pad8(|der|))))
  {
    hide Le32;
    EntrySize(der);
    var e, n := x + CertEntry(der), |CertEntry(der)|;
    var payload := der + Zeros(Pad8(|der|));
    var kind := Le16(WIN_CERT_REVISION_2_0) + Le16(WIN_CERT_TYPE_PKCS_SIGNED_DATA);
    assert kind == [0, 2, 2, 0];
    assert e == x + Le32(n) + (kind + payload);
    Le32Reads(x, n, kind + payload);
    assert e[|x| + 4..|x| + 8] == kind;
    assert e[|x| + 4] == kind[0] && e[|x| + 5] == kind[1] && e[|x| + 6] == kind[2] && e[|x| + 7] == kind[3];
    assert e[|x| + 8..|x| + n] == payload;
    assert WalkTable(e, pe, 0) == Ok(Some(e[|x| + 8..|x| + n]));
  }

  /** Extracting from a signed file gives the signature followed only by the zeros that pad
      it to eight octets. */
  lemma ExtractAfterSign(data: bytes, pe: PeInfo, der: bytes)
    requires WellPlaced(data, pe) && Fits(pe, der)
    ensures SignedImage(data, pe, der).Ok?
    ensures ParsePe(SignedImage(data, pe, der).value) == Ok(SignedInfo(pe, der))
    ensures ExtractSignature(SignedImage(data, pe, der).value, SignedInfo(pe, der))
         == Ok(Some(der + Zeros(Pad8(|der|))))
  {
    hide CertEntry, Le32, ParsePe, PeChecksum, PartsOf, SignedImage, ExtractSignature;
    var sum := SignedFile(data, pe, der);
    var p := PartsOf(data, pe);
    var q := Aligned(p);
    var front := q.head + Le32(sum) + q.mid + Directory(p, der) + q.rest;
    FileParts(data, pe);
    assert |front| == Size(q) == SignedInfo(pe, der).sigpos;
    WalkFindsEntry(front, der, SignedInfo(pe, der));
  }

  lemma PaddedEntry(der: bytes)
    ensures CertEntry(der + Zeros(Pad8(|der|))) == CertEntry(der)
  {
    hide Le32;
    var padded := der + Zeros(Pad8(|der|));
    Pad8Aligns(|der|);
    assert padded + Zeros(0) == padded;
    assert CertEntry(der) == Le32(|padded| + 8) + Le16(WIN_CERT_REVISION_2_0) +
        Le16(WIN_CERT_TYPE_PKCS_SIGNED_DATA) + padded
        || |padded| + 8 >= U32;
  }

  /** Re-embedding what was extracted reproduces the file exactly: padding never accumulates. */
  lemma ReembedReproduces(data: bytes, pe: PeInfo, der: bytes)
    requires WellPlaced(data, pe) && Fits(pe, der)
    ensures SignedImage(data, pe, der).Ok?
    ensures var signed, info := SignedImage(data, pe, der).value, SignedInfo(pe, der);
      && ExtractSignature(signed, info).Ok? && ExtractSignature(signed, info).value.Some?
      && SignedImage(signed, info, ExtractSignature(signed, info).value.value) == Ok(signed)
      && SignedImage(data, pe, ExtractSignature(signed, info).value.value) == Ok(signed)
  {
    hide CertEntry, Le32, Layout, ParsePe, PeChecksum, PartsOf, SignedImage, ExtractSignature;
    ExtractAfterSign(data, pe, der);
    var padded := der + Zeros(Pad8(|der|));
    LastSignatureWins(data, pe, der, padded);
    PaddedEntry(der);
    assert SignedImage(data, pe, padded) == SignedImage(data, pe, der) by { SameEntrySameImage(data, pe, padded, der); }
  }

  lemma SameEntrySameImage(data: bytes, pe: PeInfo, s1: bytes, s2: bytes)
    requires CertEntry(s1) == CertEntry(s2)
    ensures SignedImage(data, pe, s1) == SignedImage(data, pe, s2)
  {
  }

  // ---------------------------------------------------------------------------- checksum

  lemma {:induction false} WordSumGrows(data: bytes, field: nat, n: nat)
    requires 1 <= n && 2 * n <= |data|
    ensures WordSum(data, field, n) >= Word(data, field, 0)
  {
    if n > 1 {
      WordSumGrows(data, field, n - 1);
    } else {
      assert WordSum(data, field, 1) == WordSum(data, field, 0) + Word(data, field, 0);
    }
  }

  /** The stored checksum of a written file is what recomputing it gives, exactly when the
      header offset is even or the stored value is a multiple of 65535. */
  lemma StoredChecksumRecomputes(p: Parts, pe: PeInfo, dir: bytes, tail: bytes, sum: nat)
    requires PartsFit(p, pe) && pe.checksumOffset == pe.headerSize + 88 && |dir| == 8
    requires Size(p) + |tail| + 0xFFFF < U32
    requires |p.head| >= 132 && Read16(p.head, 0) == Ok(DOS_MAGIC)
    requires PeChecksum(Layout(p, Zeros(4), dir, tail), pe.checksumOffset) == Ok(sum)
    ensures PeChecksum(Layout(p, Le32(sum), dir, tail), pe.checksumOffset) == Ok(sum)
      <==> pe.headerSize % 2 == 0 || sum % 0xFFFF == 0
  {
    hide Le32, PeChecksum, WordSum;
    var d := Layout(p, Zeros(4), dir, tail);
    LayoutSlices(p, Zeros(4), dir, tail);
    WordSumGrows(d, pe.checksumOffset, |d| / 2);
    assert d[0] == p.head[0] && d[1] == p.head[1];
    RecomputeMatches(d, pe.checksumOffset);
    PatchSum(p, Zeros(4), dir, tail, Le32(sum));
  }

  lemma SignedChecksumRecomputes(data: bytes, pe: PeInfo, der: bytes)
    requires WellPlaced(data, pe) && Fits(pe, der)
    ensures SignedImage(data, pe, der).Ok?
    ensures var signed := SignedImage(data, pe, der).value;
      && Read32(signed, pe.checksumOffset).Ok?
      && var stored := Read32(signed, pe.checksumOffset).value;
         PeChecksum(signed, pe.checksumOffset) == Ok(stored) <==> pe.headerSize % 2 == 0 || stored % 0xFFFF == 0
  {
    hide CertEntry, Le32, ParseHeaders, PeChecksum, SignedImage, Read32;
    var sum := SignedFile(data, pe, der);
    var p := PartsOf(data, pe);
    FileParts(data, pe);
    MagicInHead(data, pe);
    var q := Aligned(p);
    StoredChecksumRecomputes(q, pe, Directory(p, der), CertEntry(der), sum);
    ReadStored(q, sum, Directory(p, der), CertEntry(der));
  }

  /** The same holds for the checksum stored when a signature is removed. */
  lemma UnsignedChecksumRecomputes(data: bytes, pe: PeInfo)
    requires WellPlaced(data, pe) && pe.sigpos > 0 && DataEnd(pe) + 0xFFFF < U32
    ensures UnsignedImage(data, pe).Ok?
    ensures var unsigned := UnsignedImage(data, pe).value;
      && Read32(unsigned, pe.checksumOffset).Ok?
      && var stored := Read32(unsigned, pe.checksumOffset).value;
         PeChecksum(unsigned, pe.checksumOffset) == Ok(stored) <==> pe.headerSize % 2 == 0 || stored % 0xFFFF == 0
  {
    hide Le32, ParseHeaders, PeChecksum, UnsignedImage, Read32;
    var sum := RemovingKeepsDigest(data, pe);
    var p := PartsOf(data, pe);
    FileParts(data, pe);
    MagicInHead(data, pe);
    StoredChecksumRecomputes(p, pe, Zeros(8), [], sum);
    ReadStored(p, sum, Zeros(8), []);
  }

  lemma MagicInHead(data: bytes, pe: PeInfo)
    requires |data| < U32 && ParsePe(data) == Ok(pe)
    ensures 132 <= pe.checksumOffset <= |data| && Read16(data[..pe.checksumOffset], 0) == Ok(DOS_MAGIC)
  {
    Read16Local(data, data[..pe.checksumOffset], 0);
  }

  lemma ReadStored(p: Parts, sum: nat, dir: bytes, tail: bytes)
    requires sum < U32
    ensures Read32(Layout(p, Le32(sum), dir, tail), |p.head|) == Ok(sum)
  {
    hide Le32, Read32;
    assert Layout(p, Le32(sum), dir, tail) == p.head + Le32(sum) + (p.mid + dir + p.rest + tail);
    Le32Reads(p.head, sum, p.mid + dir + p.rest + tail);
  }

  // ---------------------------------------------------------------- the certificate table

  datatype Entry = Entry(revision: nat, certType: nat, payload: bytes, padding: bytes)

  /** Padded to eight octets, with whatever. */
  predicate ValidEntry(e: Entry) {
    e.revision < 0x1_0000 && e.certType < 0x1_0000 && |e.padding| == Pad8(8 + |e.payload|)
  }

  function EntryOctets(e: Entry): (r: bytes)
    ensures |r| == 8 + |e.payload| + |e.padding|
  {
    Le32((8 + |e.payload|) % U32) + Le16(e.revision) + Le16(e.certType) + e.payload + e.padding
  }

  function TableOctets(entries: seq<Entry>): bytes {
    if entries == [] then [] else EntryOctets(entries[0]) + TableOctets(entries[1..])
  }

  predicate IsPkcs(e: Entry) {
    e.revision == WIN_CERT_REVISION_2_0 && e.certType == WIN_CERT_TYPE_PKCS_SIGNED_DATA
  }

  function FirstPkcs(entries: seq<Entry>): Option<bytes> {
    if entries == [] then None
    else if IsPkcs(entries[0]) then Some(entries[0].payload)
    else FirstPkcs(entries[1..])
  }

  /** The fields of one entry, at the front of the rest of the table. */
  lemma EntryFields(x: bytes, e: Entry, rest: bytes)
    requires ValidEntry(e) && 8 + |e.payload| < U32
    ensures var data, at, n := x + EntryOctets(e) + rest, |x|, 8 + |e.payload|;
      && Read32(data, at) == Ok(n)
      && Read16(data, at + 4) == Ok(e.revision) && Read16(data, at + 6) == Ok(e.certType)
      && at + n <= |data| && data[at + 8..at + n] == e.payload
  {
    hide Le32, Le16, Read32, Read16;
    var data, n := x + EntryOctets(e) + rest, 8 + |e.payload|;
    var kind, tail := Le16(e.revision) + Le16(e.certType), e.payload + e.padding + rest;
    assert data == x + Le32(n) + (kind + tail);
    Le32Reads(x, n, kind + tail);
    assert data[|x| + 4..|x| + 8] == kind;
    ReadKind(data, |x| + 4, e.revision, e.certType);
    assert data == (x + Le32(n) + kind) + e.payload + (e.padding + rest);
    Middle(x + Le32(n) + kind, e.payload, e.padding + rest);
  }

  lemma WalkEntry(x: bytes, e: Entry, rest: bytes, pe: PeInfo)
    requires ValidEntry(e) && pe.sigpos <= |x| && pe.sigpos + pe.siglen == |x + EntryOctets(e) + rest| < U32
    ensures var data, pos := x + EntryOctets(e) + rest, |x| - pe.sigpos;
      WalkTable(data, pe, pos) ==
        if IsPkcs(e) then Ok(Some(e.payload)) else WalkTable(data, pe, pos + |EntryOctets(e)|)
  {
    hide Le32, Le16, Read32, Read16, EntryOctets;
    EntryFields(x, e, rest);
  }

  lemma ReadKind(data: bytes, at: nat, revision: nat, certType: nat)
    requires revision < 0x1_0000 && certType < 0x1_0000
    requires at + 4 <= |data| && data[at..at + 4] == Le16(revision) + Le16(certType)
    ensures Read16(data, at) == Ok(revision) && Read16(data, at + 2) == Ok(certType)
  {
    var k := data[at..at + 4];
    assert data[at] == k[0] && data[at + 1] == k[1] && data[at + 2] == k[2] && data[at + 3] == k[3];
  }

  /** Over any table of 8-aligned entries the walk ends with the payload of the first
      revision-2.0 PKCS entry, or with none when there is none. */
  lemma {:induction false} WalkFindsFirst(x: bytes, entries: seq<Entry>, pe: PeInfo)
    requires forall e :: e in entries ==> ValidEntry(e)
    requires pe.sigpos <= |x| && pe.sigpos + pe.siglen == |x + TableOctets(entries)| < U32
    ensures WalkTable(x + TableOctets(entries), pe, |x| - pe.sigpos) == Ok(FirstPkcs(entries))
    decreases |entries|
  {
    hide EntryOctets, WalkTable;
    if entries == [] {
      WalkEnds(x + TableOctets(entries), pe, |x| - pe.sigpos);
    } else {
      var e, rest := entries[0], TableOctets(entries[1..]);
      var data := x + TableOctets(entries);
      assert data == x + EntryOctets(e) + rest;
      WalkEntry(x, e, rest, pe);
      if !IsPkcs(e) {
        WalkFindsFirst(x + EntryOctets(e), entries[1..], pe);
      }
    }
  }

  /** The walk passes over entries of other kinds, to whatever stands behind them. */
  lemma {:induction false} WalkPasses(x: bytes, entries: seq<Entry>, rest: bytes, pe: PeInfo)
    requires forall e :: e in entries ==> ValidEntry(e) && !IsPkcs(e)
    requires pe.sigpos <= |x| && pe.sigpos + pe.siglen == |x + TableOctets(entries) + rest| < U32
    ensures var data := x + TableOctets(entries) + rest;
      WalkTable(data, pe, |x| - pe.sigpos) == WalkTable(data, pe, |x| + |TableOctets(entries)| - pe.sigpos)
    decreases |entries|
  {
    hide EntryOctets, WalkTable;
    if entries != [] {
      var e, more := entries[0], TableOctets(entries[1..]);
      assert x + TableOctets(entries) + rest == x + EntryOctets(e) + (more + rest);
      WalkEntry(x, e, more + rest, pe);
      assert x + TableOctets(entries) + rest == x + EntryOctets(e) + more + rest;
      WalkPasses(x + EntryOctets(e), entries[1..], rest, pe);
    }
  }

  /** What stands at offset `pos` of the table decides: the payload of a revision-2.0 PKCS
      entry, a malformed or truncated entry, another kind of entry that ends the table, or a
      position that leaves 32 bits. */
  predicate Decides(rest: bytes, pos: nat, r: Result<Option<bytes>>) {
    && (|rest| < 4 ==> r == Err(UnexpectedEof))
    && (|rest| >= 4 ==>
          var len := U32At(rest, 0);
          && (len < 8 ==> r == Err(InvalidPe))
          && (len >= 8 && |rest| < 8 ==> r == Err(UnexpectedEof))
          && (len >= 8 && |rest| >= 8 && rest[4..8] == [0, 2, 2, 0] ==>
                r == if len <= |rest| then Ok(Some(rest[8..len])) else Err(UnexpectedEof))
          && (len >= 8 && |rest| >= 8 && rest[4..8] != [0, 2, 2, 0] && len + Pad8(len) >= |rest| ==>
                r == if pos + len + Pad8(len) < U32 then Ok(None) else Err(ArithmeticOverflow)))
  }

  /** Every table is some entries of other kinds and a rest, which decides. */
  lemma ExtractIsExact(front: bytes, entries: seq<Entry>, rest: bytes, pe: PeInfo)
    requires forall e :: e in entries ==> ValidEntry(e) && !IsPkcs(e)
    requires pe.sigpos == |front| > 0 && pe.siglen == |TableOctets(entries) + rest|
    requires |front| + |TableOctets(entries)| + |rest| < U32
    ensures var r := ExtractSignature(front + TableOctets(entries) + rest, pe);
      if rest == [] then r == Ok(None) else Decides(rest, |TableOctets(entries)|, r)
  {
    hide TableOctets, WalkTable, Decides;
    var data, pos := front + TableOctets(entries) + rest, |TableOctets(entries)|;
    WalkPasses(front, entries, rest, pe);
    if rest == [] {
      WalkEnds(data, pe, pos);
    } else {
      assert data[pe.sigpos + pos..] == rest;
      RestDecides(data, pe, pos);
    }
  }

  lemma RestDecides(data: bytes, pe: PeInfo, pos: nat)
    requires pos < pe.siglen && pe.sigpos + pe.siglen == |data| < U32
    ensures Decides(data[pe.sigpos + pos..], pos, WalkTable(data, pe, pos))
  {
    hide U32At, Pad8, Read32;
    var at := pe.sigpos + pos;
    var rest := data[at..];
    ReadTail(data, at);
    if |rest| >= 8 {
      assert rest[4..8] == [data[at + 4], data[at + 5], data[at + 6], data[at + 7]];
      var len := U32At(rest, 0);
      if 8 <= len <= |rest| {
        assert data[at + 8..at + len] == rest[8..len];
      }
    }
  }

  lemma ReadTail(data: bytes, at: nat)
    requires at <= |data|
    ensures Read32(data, at) == if |data[at..]| < 4 then Err(UnexpectedEof) else Ok(U32At(data[at..], 0))
  {
  }

  lemma WalkEnds(data: bytes, pe: PeInfo, pos: nat)
    requires pos >= pe.siglen
    ensures WalkTable(data, pe, pos) == Ok(None)
  {
  }

  lemma ExtractFindsFirst(front: bytes, entries: seq<Entry>, pe: PeInfo)
    requires forall e :: e in entries ==> ValidEntry(e)
    requires pe.sigpos == |front| > 0 && pe.siglen == |TableOctets(entries)|
    requires |front| + |TableOctets(entries)| < U32
    ensures ExtractSignature(front + TableOctets(entries), pe) == Ok(FirstPkcs(entries))
  {
    WalkFindsFirst(front, entries, pe);
  }
}
