/** Any sequence of signing and removing, on one file. */
module PeRuns {
  import opened Bytes
  import opened PeFormat
  import opened PeLayout
  import opened PeLaws

  datatype Op = Sign(der: bytes) | Remove

  /** One command: parse the file, then write its signed or unsigned image. */
  function Step(data: bytes, op: Op): Result<bytes> {
    var pe :- ParsePe(data);
    match op
    case Sign(der) => SignedImage(data, pe, der)
    case Remove => UnsignedImage(data, pe)
  }

  function Run(data: bytes, ops: seq<Op>): Result<bytes> {
    if ops == [] then Ok(data)
    else
      var before :- Run(data, ops[..|ops| - 1]);
      Step(before, ops[|ops| - 1])
  }

  /** Whether the file is signed after the commands. */
  function SignedAfter(signed: bool, ops: seq<Op>): bool {
    if ops == [] then signed else ops[|ops| - 1].Sign?
  }

  /** No command removes a signature that is not there. */
  predicate Legal(signed: bool, ops: seq<Op>) {
    ops == [] ||
    var before := ops[..|ops| - 1];
    Legal(signed, before) && (ops[|ops| - 1].Sign? || SignedAfter(signed, before))
  }

  predicate AllFit(pe: PeInfo, ops: seq<Op>) {
    && DataEnd(pe) + 16 + 0xFFFF < U32
    && forall op :: op in ops && op.Sign? ==> DataEnd(pe) + 16 + |CertEntry(op.der)| + 0xFFFF < U32
  }

  /** A file made from `data`: well placed, the same offsets, and the same parts but for padding. */
  predicate MadeFrom(out: bytes, info: PeInfo, data: bytes, pe: PeInfo)
    requires WellPlaced(data, pe)
  {
    && WellPlaced(out, info)
    && info.headerSize == pe.headerSize && info.pe32plus == pe.pe32plus
    && (PartsOf(out, info) == PartsOf(data, pe) || PartsOf(out, info) == Aligned(PartsOf(data, pe)))
  }

  lemma MadeFromSigned(out: bytes, info: PeInfo, data: bytes, pe: PeInfo, der: bytes)
    requires WellPlaced(data, pe) && MadeFrom(out, info, data, pe) && Fits(info, der)
    ensures SignedImage(out, info, der).Ok?
    ensures MadeFrom(SignedImage(out, info, der).value, SignedInfo(info, der), data, pe)
    ensures SignedImage(out, info, der) == SignedImage(data, pe, der)
  {
    hide CertEntry, Layout, ParsePe, PartsOf, SignedImage, SignedOf, Aligned;
    var sum := SignedFile(out, info, der);
    AlignedTwice(PartsOf(data, pe));
    SignedIsOfParts(out, info, der);
    SignedIsOfParts(data, pe, der);
    SameOffsets(PartsOf(out, info), info, pe, der);
    SignedOfShifted(PartsOf(data, pe), pe, pe, der);
  }

  lemma SameOffsets(p: Parts, info: PeInfo, pe: PeInfo, der: bytes)
    requires info.checksumOffset == pe.checksumOffset
    ensures SignedOf(p, info, der) == SignedOf(p, pe, der)
  {
  }

  lemma MadeFromSize(out: bytes, info: PeInfo, data: bytes, pe: PeInfo)
    requires WellPlaced(data, pe) && MadeFrom(out, info, data, pe)
    ensures DataEnd(info) <= DataEnd(pe) + 7
    ensures DigestStream(out, info) == DigestStream(data, pe)
  {
    hide ParsePe, PartsOf, DigestStream;
    FileParts(data, pe);
    FileParts(out, info);
    var p := PartsOf(data, pe);
    Pad8Aligns(Size(p));
    assert p.rest + Zeros(Pad8(Size(p))) + Zeros(0) == p.rest + Zeros(Pad8(Size(p)));
    assert p.head + p.mid + (p.rest + Zeros(Pad8(Size(p)))) + Zeros(0) == p.head + p.mid + p.rest +
        Zeros(Pad8(Size(p)));
  }

  lemma MadeFromRemoved(out: bytes, info: PeInfo, data: bytes, pe: PeInfo)
    requires WellPlaced(data, pe) && MadeFrom(out, info, data, pe)
    requires info.sigpos > 0 && DataEnd(info) + 0xFFFF < U32
    ensures UnsignedImage(out, info).Ok? && MadeFrom(UnsignedImage(out, info).value, UnsignedInfo(info), data, pe)
  {
    hide Layout, ParsePe, PartsOf, UnsignedImage;
    var sum := RemovingKeepsDigest(out, info);
  }

  /** Over every run: it fails exactly when it removes a missing signature, and otherwise its
      file parses, has the digest stream of the original, is signed exactly when the last
      command says so, and, if that was a signing, is the original signed with it alone. */
  lemma {:induction false} RunsKeepTheFile(data: bytes, pe: PeInfo, ops: seq<Op>)
    requires WellPlaced(data, pe) && AllFit(pe, ops)
    ensures Run(data, ops).Ok? <==> Legal(pe.sigpos > 0, ops)
    ensures Run(data, ops).Err? ==> Run(data, ops).error == NoSignature
    ensures Run(data, ops).Ok? ==>
      var out := Run(data, ops).value;
      && ParsePe(out).Ok?
      && MadeFrom(out, ParsePe(out).value, data, pe)
      && DigestStream(out, ParsePe(out).value) == DigestStream(data, pe)
      && (ParsePe(out).value.sigpos > 0 <==> SignedAfter(pe.sigpos > 0, ops))
      && (ops != [] && ops[|ops| - 1].Sign? ==> SignedImage(data, pe, ops[|ops| - 1].der) == Ok(out))
    decreases |ops|
  {
    hide CertEntry, ParsePe, SignedImage, UnsignedImage, DigestStream, PartsOf;
    if ops == [] {
    } else {
      var before, op := ops[..|ops| - 1], ops[|ops| - 1];
      assert op in ops && forall o :: o in before ==> o in ops;
      RunsKeepTheFile(data, pe, before);
      if Run(data, before).Ok? {
        var out := Run(data, before).value;
        var info := ParsePe(out).value;
        MadeFromSize(out, info, data, pe);
        if op.Sign? {
          EntrySize(op.der);
          MadeFromSigned(out, info, data, pe, op.der);
          MadeFromSize(SignedImage(out, info, op.der).value, SignedInfo(info, op.der), data, pe);
        } else if info.sigpos > 0 {
          MadeFromRemoved(out, info, data, pe);
          MadeFromSize(UnsignedImage(out, info).value, UnsignedInfo(info), data, pe);
        } else {
          NothingToRemove(out, info);
        }
      }
    }
  }

  lemma NothingToRemove(data: bytes, pe: PeInfo)
    requires pe.sigpos == 0
    ensures UnsignedImage(data, pe) == Err(NoSignature)
  {
  }
}
