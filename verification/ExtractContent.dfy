/** Reading the content proper out of whichever envelope it arrived in. */
module ExtractContent {
  import opened Bytes
  import opened DerCodec
  import opened DerItems
  import opened Spine
  import opened ContentRewrite
  import opened RoundTrip

  const OBJECT_IDENTIFIER: byte := 0x06

  /** The value of a top-level SEQUENCE without its tag and length. */
  function DerSequenceContent(der: bytes): Result<bytes> {
    var h :- ReadHeader(der, 0);
    if h.tag != SEQUENCE then Err(NotASequence) else Ok(der[h.contentStart..h.contentEnd])
  }

  /** The read-only walk: it asks for no version, and slices inside the first child only. */
  function SpcContentFromPkcs7(der: bytes): Result<bytes> {
    var info :- ReadHeader(der, 0);
    if info.tag != SEQUENCE then Err(NotASequence)
    else
      var content :- LocateChild(der, info.contentStart, info.contentEnd, CONTEXT_0, MissingContent);
      var signedData :- LocateChild(der, content.contentStart, content.contentEnd, SEQUENCE, MissingSignedData);
      var encap :- LocateChild(der, signedData.contentStart, signedData.contentEnd, SEQUENCE, MissingEncapContentInfo);
      var eContent :- LocateChild(der, encap.contentStart, encap.contentEnd, CONTEXT_0, MissingEContent);
      var first :- LocateFirst(der, eContent.contentStart, eContent.contentEnd, EmptyEContent);
      FoundFirst(der, eContent.contentStart, eContent.contentEnd, EmptyEContent);
      if first.tag == OCTET_STRING then Ok(der[first.contentStart..first.contentEnd])
      else Ok(der[first.start..first.contentEnd])
  }

  /** Tells the envelopes apart by the first child: a SEQUENCE for bare content, an OBJECT
      IDENTIFIER for a ContentInfo. */
  function ExtractSpcContent(blob: bytes): Result<bytes> {
    var h :- ReadHeader(blob, 0);
    if h.tag != SEQUENCE then Err(NotASequence)
    else
      var v :- Children(blob, h.contentStart, h.contentEnd);
      if v != [] && v[0].tag == SEQUENCE then Ok(blob)
      else if v != [] && v[0].tag == OBJECT_IDENTIFIER then SpcContentFromPkcs7(blob)
      else Err(UnknownEnvelope)
  }

  /** The content proper of an eContent body. */
  function Payload(body: bytes): bytes
    requires HasFirst(body)
  {
    if Wrapped(body) then Content(First(body)) else First(body)
  }

  /** A ContentInfo leads with its contentType. */
  predicate LeadsWithOid(t: Tree) {
    t.contentInfo.pre != [] && t.contentInfo.pre[0] != [] && t.contentInfo.pre[0][0] == OBJECT_IDENTIFIER
  }

  /** Bare content: one SEQUENCE that is a list of TLVs and starts with a SEQUENCE. */
  predicate IsSpcContent(c: bytes) {
    IsTlv(c) && c[0] == SEQUENCE && HasFirst(Content(c)) && Content(c)[0] == SEQUENCE
  }

  /** The walk and the strict tree agree on every well-nested input. */
  lemma WalkFindsPayload(der: bytes)
    requires WellNested(der)
    ensures SpcContentFromPkcs7(der) == Ok(Payload(Parse(der).value.body))
  {
    hide ReadHeader, LenOctets, Parse;
    var s := LocateIsTree(der);
  }

  lemma ContentInfoItems(der: bytes)
    requires Parse(der).Some? && Parse(der).value.contentInfo.pre != []
    ensures ReadHeader(der, 0).Ok? && ReadHeader(der, 0).value.tag == SEQUENCE
    ensures var h := ReadHeader(der, 0).value;
      var items := Split(der[h.contentStart..h.contentEnd]);
      items.Some? && items.value != [] && items.value[0] == Parse(der).value.contentInfo.pre[0]
  {
    hide ReadHeader, Split;
  }

  lemma ExtractFindsPayload(der: bytes)
    requires WellNested(der) && LeadsWithOid(Parse(der).value)
    ensures ExtractSpcContent(der) == Ok(Payload(Parse(der).value.body))
  {
    hide LenOctets, SpcContentFromPkcs7, Parse, ReadHeader, Split, Children;
    ContentInfoItems(der);
    var h := ReadHeader(der, 0).value;
    var c := FirstAt(der, h.contentStart, h.contentEnd, EmptyEContent);
    WalkFindsPayload(der);
  }

  lemma ExtractBare(c: bytes)
    requires IsSpcContent(c)
    ensures ExtractSpcContent(c) == Ok(c)
  {
    hide LenOctets, SpcContentFromPkcs7, Children, Split;
    var h := ReadHeader(c, 0).value;
    assert c[h.contentStart..h.contentEnd] == Content(c);
    var first := FirstAt(c, h.contentStart, h.contentEnd, EmptyEContent);
  }

  /** Anything else is refused: what is no SEQUENCE, and a SEQUENCE of TLVs that leads with
      neither a SEQUENCE nor an OBJECT IDENTIFIER. */
  lemma OtherEnvelopesAreRefused(c: bytes, trailer: bytes)
    requires IsTlv(c) && Split(Content(c)).Some?
    ensures c[0] != SEQUENCE ==> ExtractSpcContent(c + trailer) == Err(NotASequence)
    ensures var items := Split(Content(c)).value;
      c[0] == SEQUENCE && (items == [] || (items[0] != [] && items[0][0] !in {SEQUENCE, OBJECT_IDENTIFIER})) ==>
        ExtractSpcContent(c + trailer) == Err(UnknownEnvelope)
  {
    hide LenOctets, SpcContentFromPkcs7, Children, Split, ReadHeader;
    var h := ReadHeader(c, 0).value;
    ReadHeaderLocal(c, 0, c + trailer, 0, |c|);
    assert (c + trailer)[h.contentStart..h.contentEnd] == Content(c);
    ChildrenAreItems(c + trailer, h.contentStart, h.contentEnd);
    var items := Split(Content(c)).value;
    if items != [] {
      var first := FirstAt(c + trailer, h.contentStart, h.contentEnd, EmptyEContent);
    }
  }

  /** Bare, wrapped in an OCTET STRING, or native, padded or not: every envelope yields the
      same octets. */
  lemma EveryEnvelopeYieldsTheContent(c: bytes, t: Tree, trailer: bytes)
    requires IsSpcContent(c) && ValidTree(t) && LeadsWithOid(t)
    requires |Print(t.(body := c))| < U32 && |Print(t.(body := Emit(OCTET_STRING, c)))| < U32
    ensures ExtractSpcContent(c) == Ok(c)
    ensures ExtractSpcContent(Print(t.(body := c)) + trailer) == Ok(c)
    ensures ExtractSpcContent(Print(t.(body := Emit(OCTET_STRING, c))) + trailer) == Ok(c)
  {
    ExtractBare(c);
    TlvIsItsFirst(c);
    ExtractPrinted(t.(body := c), trailer);
    var wrapped := Emit(OCTET_STRING, c);
    PrintIsLonger(t.(body := wrapped));
    EmitIsTlv(OCTET_STRING, c);
    TlvIsItsFirst(wrapped);
    ExtractPrinted(t.(body := wrapped), trailer);
  }

  lemma PrintIsLonger(t: Tree)
    ensures |t.body| <= |Print(t)|
  {
    hide LenOctets;
  }

  lemma ExtractPrinted(t: Tree, trailer: bytes)
    requires ValidTree(t) && HasFirst(t.body) && LeadsWithOid(t) && |Print(t)| < U32
    ensures ExtractSpcContent(Print(t) + trailer) == Ok(Payload(t.body))
  {
    hide Parse, Print, ExtractSpcContent;
    ParseInvertsPrint(t, trailer);
    ExtractFindsPayload(Print(t) + trailer);
  }

  /** The fix-up keeps the content. Wrapping always does; normalizing does exactly when the
      payload it uncovers is one TLV that is not an OCTET STRING. */
  lemma RewriteKeepsContent(der: bytes, wrap: bool)
    requires WellNested(der) && LeadsWithOid(Parse(der).value)
    requires Rewrite(der, wrap).Ok? && |Rewrite(der, wrap).value| < U32 && |der| < U32
    requires ValidTree(Parse(der).value) && HasFirst(EditBody(Parse(der).value.body, wrap))
    ensures ExtractSpcContent(Rewrite(der, wrap).value) == ExtractSpcContent(der) <==>
      var t := Parse(der).value;
      wrap || !Wrapped(t.body) || (SingleTlv(Payload(t.body)) && !Wrapped(Payload(t.body)))
  {
    hide Parse, Print, ExtractSpcContent, Rewrite, LenOctets;
    var t := Parse(der).value;
    ExtractFindsPayload(der);
    RewriteRefinesTreeEdit(der, wrap);
    var e := Edit(t, wrap);
    ExtractFindsPayload(Rewrite(der, wrap).value);
    if wrap && !Wrapped(t.body) {
      WrapFits(der);
      EmitIsTlv(OCTET_STRING, First(t.body));
      TlvIsItsFirst(Emit(OCTET_STRING, First(t.body)));
    } else if !wrap && Wrapped(t.body) {
      var payload := Content(First(t.body));
      SingleIsFirst(payload);
      FirstNotLonger(payload);
      assert |Content(First(payload))| < |First(payload)|;
    }
  }

  /** The value of a SEQUENCE, whatever follows it. */
  lemma SequenceValue(c: bytes, trailer: bytes)
    requires IsTlv(c) && c[0] == SEQUENCE
    ensures DerSequenceContent(c + trailer) == Ok(Content(c))
  {
    hide ReadHeader;
    ReadHeaderLocal(c, 0, c + trailer, 0, |c|);
    var h := ReadHeader(c, 0).value;
    assert (c + trailer)[h.contentStart..h.contentEnd] == c[h.contentStart..];
  }

  /** On every input the result is the value of the SEQUENCE that a prefix is, and there is
      none when no prefix is one. */
  lemma SequenceValueIsExact(der: bytes, value: bytes)
    ensures DerSequenceContent(der) == Ok(value) <==>
      exists n :: 0 < n <= |der| && IsTlv(der[..n]) && der[0] == SEQUENCE && Content(der[..n]) == value
  {
    hide ReadHeader;
    if DerSequenceContent(der) == Ok(value) {
      var h := ReadHeader(der, 0).value;
      var c := der[..h.contentEnd];
      ReadHeaderLocal(der, 0, c, 0, |c|);
      assert c[h.contentStart..] == der[h.contentStart..h.contentEnd];
    }
    if n :| 0 < n <= |der| && IsTlv(der[..n]) && der[0] == SEQUENCE && Content(der[..n]) == value {
      assert der[..n] + der[n..] == der;
      SequenceValue(der[..n], der[n..]);
    }
  }

  /** What extraction makes of an envelope, without the tag and length of its SEQUENCE: the
      octets a message digest is taken over. */
  function DigestedOctets(blob: bytes): Result<bytes> {
    var content :- ExtractSpcContent(blob);
    DerSequenceContent(content)
  }

  /** A signer digests the same octets whichever envelope the content arrived in, and whichever
      form of the signature it is read back from, padded or not. */
  lemma SignedOctetsAreStable(c: bytes, t: Tree, trailer: bytes)
    requires IsSpcContent(c) && ValidTree(t) && LeadsWithOid(t)
    requires |Print(t.(body := c))| < U32 && |Print(t.(body := Emit(OCTET_STRING, c)))| < U32
    ensures DigestedOctets(c) == Ok(Content(c))
    ensures DigestedOctets(Print(t.(body := c)) + trailer) == Ok(Content(c))
    ensures DigestedOctets(Print(t.(body := Emit(OCTET_STRING, c))) + trailer) == Ok(Content(c))
  {
    hide ExtractSpcContent, DerSequenceContent, Print, Parse;
    EveryEnvelopeYieldsTheContent(c, t, trailer);
    SequenceValue(c, []);
    assert c + [] == c;
  }
}
