/** The recurring conditions can be met: a smallest image and a smallest signature. */
module Instances {
  import opened Bytes
  import opened Checksum
  import opened DerCodec
  import opened DerItems
  import opened Spine
  import opened PeFormat
  import opened PeLaws
  import opened PeLayout
  import opened VerifyPipeline

  /** An unsigned PE32 image of 240 octets whose PE header is at 64. */
  function SmallestImage(): (r: bytes)
    ensures |r| == 240
  {
    [0x4D, 0x5A] + Zeros(58) + [64, 0, 0, 0] + [0x50, 0x45, 0, 0] + Zeros(20) + [0x0B, 0x01] + Zeros(90)
    + [16, 0, 0, 0] + Zeros(56)
  }

  const SMALLEST_INFO := PeInfo(false, 64, 152, 216, 0, 0, 240)

  lemma SmallestImageIsWellPlaced()
    ensures WellPlaced(SmallestImage(), SMALLEST_INFO)
  {
    var d := SmallestImage();
    assert d[0] == 0x4D && d[1] == 0x5A;
    assert d[60] == 64 && d[61] == 0 && d[62] == 0 && d[63] == 0;
    assert d[64] == 0x50 && d[65] == 0x45 && d[66] == 0 && d[67] == 0;
    assert d[88] == 0x0B && d[89] == 0x01;
    assert d[180] == 16 && d[181] == 0 && d[182] == 0 && d[183] == 0;
    assert forall i :: 216 <= i < 224 ==> d[i] == 0;
    assert Read32(d, 216) == Ok(0) && Read32(d, 220) == Ok(0);
  }

  /** An unsigned PE32+ image of 256 octets whose PE header is at 64. */
  function SmallestPlusImage(): (r: bytes)
    ensures |r| == 256
  {
    [0x4D, 0x5A] + Zeros(58) + [64, 0, 0, 0] + [0x50, 0x45, 0, 0] + Zeros(20) + [0x0B, 0x02] + Zeros(106)
    + [16, 0, 0, 0] + Zeros(56)
  }

  const SMALLEST_PLUS_INFO := PeInfo(true, 64, 152, 232, 0, 0, 256)

  /** A 64-bit image is accepted by the count at its own offset; the octets at the 32-bit one
      are zero. */
  lemma SmallestPlusImageIsWellPlaced()
    ensures WellPlaced(SmallestPlusImage(), SMALLEST_PLUS_INFO)
    ensures Read32(SmallestPlusImage(), 64 + 116) == Ok(0)
  {
    var d := SmallestPlusImage();
    assert d[0] == 0x4D && d[1] == 0x5A;
    assert d[60] == 64 && d[61] == 0 && d[62] == 0 && d[63] == 0;
    assert d[64] == 0x50 && d[65] == 0x45 && d[66] == 0 && d[67] == 0;
    assert d[88] == 0x0B && d[89] == 0x02;
    assert d[196] == 16 && d[197] == 0 && d[198] == 0 && d[199] == 0;
    assert forall i :: 180 <= i < 184 || 232 <= i < 240 ==> d[i] == 0;
    ParseIsExact(d);
  }

  // ------------------------------------------------------ a checksum that does not recompute

  /** The parts of an unsigned PE32 image of 241 octets whose PE header is at 65. */
  function OddParts(): (p: Parts)
    ensures |p.head| == 153 && |p.mid| == 60 && |p.rest| == 16
  {
    Parts([0x4D, 0x5A] + Zeros(58) + [65, 0, 0, 0, 0, 0x50, 0x45, 0, 0] + Zeros(20) + [0x0B, 0x01] + Zeros(62),
          Zeros(24) + [16, 0, 0, 0] + Zeros(32),
          Zeros(16))
  }

  function OddImage(): bytes {
    Layout(OddParts(), Zeros(4), Zeros(8), [])
  }

  const ODD_INFO := PeInfo(false, 65, 153, 217, 0, 0, 241)

  /** The octets of the odd image that the parser reads. */
  lemma OddFields()
    ensures var d := OddImage();
      && |d| == 241
      && d[0] == 0x4D && d[1] == 0x5A && d[60] == 65 && d[61] == 0 && d[62] == 0 && d[63] == 0
      && d[65] == 0x50 && d[66] == 0x45 && d[67] == 0 && d[68] == 0 && d[89] == 0x0B && d[90] == 0x01
      && d[181] == 16 && d[182] == 0 && d[183] == 0 && d[184] == 0
      && forall i :: 217 <= i < 225 ==> d[i] == 0
  {
    hide OddParts;
    var d, p := OddImage(), OddParts();
    OddPartOctets();
    assert forall i :: 0 <= i < 153 ==> d[i] == p.head[i];
    assert forall i :: 157 <= i < 217 ==> d[i] == p.mid[i - 157];
  }

  lemma OddImageIsWellPlaced()
    ensures WellPlaced(OddImage(), ODD_INFO) && PartsOf(OddImage(), ODD_INFO) == OddParts()
  {
    OddFields();
    hide OddParts, Layout;
    var d := OddImage();
    assert Read32(d, 217) == Ok(0) && Read32(d, 221) == Ok(0);
    PartsOfLayout(OddParts(), Zeros(4), Zeros(8), [], ODD_INFO);
  }

  lemma {:induction false} ZeroRun(data: bytes, field: nat, a: nat, b: nat)
    requires a <= b && 2 * b <= |data| && forall i :: 2 * a <= i < 2 * b ==> data[i] == 0
    ensures WordSum(data, field, b) == WordSum(data, field, a)
    decreases b
  {
    if a < b {
      ZeroRun(data, field, a, b - 1);
    }
  }

  /** One word after a run of zeros. */
  lemma NextWord(data: bytes, field: nat, a: nat, b: nat, w: nat)
    requires a <= b && 2 * b + 1 < |data| && forall i :: 2 * a <= i < 2 * b ==> data[i] == 0
    requires Word(data, field, b) == w
    ensures WordSum(data, field, b + 1) == WordSum(data, field, a) + w
  {
    ZeroRun(data, field, a, b);
  }

  /** The odd image with an empty signature, before its checksum is stored. */
  function OddUnsummed(): (d: bytes)
    ensures |d| == 256
  {
    OddParts().head + Zeros(4) + OddParts().mid + [0xF8, 0, 0, 0, 8, 0, 0, 0] + Zeros(23) + [8, 0, 0, 0, 0, 2, 2, 0]
  }

  /** The octets of the unsummed odd image that are not zero. */
  ghost predicate OddPattern(d: bytes) {
    && |d| == 256
    && d[0] == 0x4D && d[1] == 0x5A && d[60] == 65 && d[65] == 0x50 && d[66] == 0x45 && d[89] == 0x0B && d[90] == 1
    && d[181] == 16 && d[217] == 0xF8 && d[221] == 8 && d[248] == 8 && d[253] == 2 && d[254] == 2
    && forall i :: 0 <= i < 256 && ZeroAt(i) ==> d[i] == 0
  }

  predicate ZeroAt(i: nat) {
    i !in {0, 1, 60, 65, 66, 89, 90, 181, 217, 221, 248, 253, 254}
  }

  lemma OddOctets()
    ensures OddPattern(OddUnsummed())
  {
    hide OddParts;
    var d, p := OddUnsummed(), OddParts();
    OddPartOctets();
    assert forall i :: 0 <= i < 153 ==> d[i] == p.head[i];
    assert forall i :: 153 <= i < 157 ==> d[i] == 0;
    assert forall i :: 157 <= i < 217 ==> d[i] == p.mid[i - 157];
    var dir: bytes, entry: bytes := [0xF8, 0, 0, 0, 8, 0, 0, 0], [8, 0, 0, 0, 0, 2, 2, 0];
    assert forall i :: 217 <= i < 225 ==> d[i] == dir[i - 217];
    assert forall i :: 225 <= i < 248 ==> d[i] == 0;
    assert forall i :: 248 <= i < 256 ==> d[i] == entry[i - 248];
  }

  lemma OddPartOctets()
    ensures var h, m := OddParts().head, OddParts().mid;
      && h[0] == 0x4D && h[1] == 0x5A && h[60] == 65 && h[65] == 0x50 && h[66] == 0x45 && h[89] == 0x0B && h[90] == 1
      && m[24] == 16
      && (forall i :: 0 <= i < 153 && i !in {0, 1, 60, 65, 66, 89, 90} ==> h[i] == 0)
      && (forall i :: 0 <= i < 60 && i != 24 ==> m[i] == 0)
  {
  }

  lemma OddHeadSum(d: bytes)
    requires OddPattern(d)
    ensures WordSum(d, 153, 46) == 46548
  {
    hide WordSum;
    assert WordSum(d, 153, 0) == 0 by { NoSum(d); }
    NextWord(d, 153, 0, 0, 0x5A4D);
    NextWord(d, 153, 1, 30, 65);
    NextWord(d, 153, 31, 32, 0x5000);
    NextWord(d, 153, 33, 33, 0x45);
    NextWord(d, 153, 34, 44, 0x0B00);
    NextWord(d, 153, 45, 45, 1);
  }

  lemma NoSum(d: bytes)
    ensures WordSum(d, 153, 0) == 0
  {
  }

  lemma OddTailSum(d: bytes)
    requires OddPattern(d)
    ensures WordSum(d, 153, 128) == WordSum(d, 153, 46) + 70154
  {
    hide WordSum;
    NextWord(d, 153, 46, 90, 0x1000);
    NextWord(d, 153, 91, 108, 0xF800);
    NextWord(d, 153, 109, 110, 0x0800);
    NextWord(d, 153, 111, 124, 8);
    NextWord(d, 153, 125, 126, 0x0200);
    NextWord(d, 153, 127, 127, 2);
  }

  /** Signing an image whose PE header is at an odd offset stores a checksum that
      recomputation does not confirm. */
  lemma OddChecksumDoesNotRecompute()
    ensures WellPlaced(OddImage(), ODD_INFO) && SignedImage(OddImage(), ODD_INFO, []).Ok?
    ensures var signed := SignedImage(OddImage(), ODD_INFO, []).value;
      Read32(signed, 153) == Ok(51423) && PeChecksum(signed, 153).Ok? && PeChecksum(signed, 153) != Ok(51423)
  {
    OddImageIsWellPlaced();
    hide OddPattern, OddImage, OddParts, SignedImage, PeChecksum, WordSum, Read32, ParsePe;
    var p := OddParts();
    EntrySize([]);
    var sum := SignedFile(OddImage(), ODD_INFO, []);
    var d := Layout(Aligned(p), Zeros(4), Directory(p, []), CertEntry([]));
    OddLayout();
    ChecksumOfWords(d, 153);
    OddOctets();
    OddHeadSum(d);
    OddTailSum(d);
    assert sum == EndAroundCarry(116702) + 256 == 51423;
    ReadStored(Aligned(p), sum, Directory(p, []), CertEntry([]));
    SignedChecksumRecomputes(OddImage(), ODD_INFO, []);
    ChecksumOfWords(SignedImage(OddImage(), ODD_INFO, []).value, 153);
  }

  lemma OddLayout()
    ensures Layout(Aligned(OddParts()), Zeros(4), Directory(OddParts(), []), CertEntry([])) == OddUnsummed()
  {
    hide WordSum;
    var p := OddParts();
    assert CertEntry([]) == [8, 0, 0, 0, 0, 2, 2, 0];
    assert Size(Aligned(p)) == 248;
    assert Directory(p, []) == [0xF8, 0, 0, 0, 8, 0, 0, 0];
    assert Aligned(p).rest == Zeros(23);
  }

  // ------------------------------------------------------------------- a smallest signature

  /** An empty content SEQUENCE, wrapped, under empty identifiers and no signers. */
  const SMALLEST_TREE := Tree(
    Frame([[0x06, 0x00]], []), Frame([], []), Frame([VERSION_3, [0x31, 0x00]], []), Frame([[0x06, 0x00]], []),
    [0x04, 0x02, 0x30, 0x00])

  lemma SmallestSignature()
    ensures var content: bytes := [0x30, 0x00];
      && ValidTree(SMALLEST_TREE) && HasFirst(SMALLEST_TREE.body)
      && SignerOutput(Print(SMALLEST_TREE), content, Print(Edit(SMALLEST_TREE, false)))
  {
    var t, content: bytes := SMALLEST_TREE, [0x30, 0x00];
    assert IsTlv([0x06, 0x00]) && IsTlv([0x31, 0x00]) && IsTlv(content) && IsTlv(VERSION_3);
    assert Tags(t.signedData.pre) == [0x02, 0x31];
    assert ValidTree(t);
    assert t.body == Emit(OCTET_STRING, content);
    SmallSizes(t);
    SmallSizes(t.(body := content));
    PrintedIsSignerOutput(t, content);
  }

  lemma SmallSizes(t: Tree)
    requires t.contentInfo == SMALLEST_TREE.contentInfo && t.content == SMALLEST_TREE.content
    requires t.signedData == SMALLEST_TREE.signedData && t.encap == SMALLEST_TREE.encap && |t.body| <= 4
    ensures |Print(t)| < 100
  {
    assert t.signedData.pre[1..] == [[0x31, 0x00]] && Flat([[0x31, 0x00]]) == [0x31, 0x00] + Flat([]);
    assert |Flat(t.encap.pre)| == 2 && |Flat(t.contentInfo.pre)| == 2 && |Flat(t.signedData.pre)| == 5;
    assert |EncapContent(t)| == 2 + 2 + |t.body|;
    assert |SignedDataContent(t)| == 5 + 2 + |EncapContent(t)|;
    assert |InfoContent(t)| == 2 + 2 + 2 + |SignedDataContent(t)|;
  }
}
