/** Attaching timestamps to a CMS SignedData. Encodings are functions of what they encode. */
module Timestamp {
  import opened Bytes

  datatype Attribute = Attribute(typ: Oid, value: bytes)

  datatype SignerInfo = SignerInfo(
    signature: bytes, signedAttributes: bytes, rest: bytes, unsignedAttributes: Option<seq<Attribute>>)

  datatype CmsValue = CmsValue(contentType: Oid, certificates: Option<seq<Cert>>, signers: seq<SignerInfo>, rest: bytes)

  datatype Encoder = Encoder(token: CmsValue -> bytes, signer: SignerInfo -> bytes)

  /** 1.3.6.1.4.1.311.3.3.1 */
  const SPC_RFC3161: Oid := [0x2B, 0x06, 0x01, 0x04, 0x01, 0x82, 0x37, 0x03, 0x03, 0x01]
  /** 1.2.840.113549.1.9.6 */
  const PKCS9_COUNTER_SIGNATURE: Oid := [0x2A, 0x86, 0x48, 0x86, 0xF7, 0x0D, 0x01, 0x09, 0x06]
  /** 1.2.840.113549.1.9.16.1.4 */
  const TST_INFO: Oid := [0x2A, 0x86, 0x48, 0x86, 0xF7, 0x0D, 0x01, 0x09, 0x10, 0x01, 0x04]

  function Attributes(s: SignerInfo): seq<Attribute> {
    if s.unsignedAttributes.Some? then s.unsignedAttributes.value else []
  }

  function Certificates(c: CmsValue): seq<Cert> {
    if c.certificates.Some? then c.certificates.value else []
  }

  // ------------------------------------------------------------------ attachments on values

  /** An attachment's new state and outcome; a failing one may have changed the state. */
  datatype Attached = Attached(cms: CmsValue, outcome: Result<()>)

  function Push(c: CmsValue, a: Attribute): Attached {
    if c.signers == [] then Attached(c, Err(NoSigner))
    else
      var first := c.signers[0].(unsignedAttributes := Some(Attributes(c.signers[0]) + [a]));
      Attached(c.(signers := c.signers[0 := first]), Ok(()))
  }

  /** The certificates with those of `more` that are missing appended in order. */
  function AddMissing(certs: seq<Cert>, more: seq<Cert>): seq<Cert>
    decreases |more|
  {
    if more == [] then certs
    else AddMissing(if more[0] in certs then certs else certs + [more[0]], more[1..])
  }

  datatype Stamp = Rfc3161(token: CmsValue) | Legacy(response: CmsValue)

  /** A legacy response that is an RFC 3161 token is attached whole, like a requested token. */
  predicate IsToken(s: Stamp) {
    s.Rfc3161? || s.response.contentType == TST_INFO
  }

  function StampAttribute(enc: Encoder, s: Stamp): Attribute
    requires IsToken(s) || s.response.signers != []
  {
    if s.Rfc3161? then Attribute(SPC_RFC3161, enc.token(s.token))
    else if IsToken(s) then Attribute(SPC_RFC3161, enc.token(s.response))
    else Attribute(PKCS9_COUNTER_SIGNATURE, enc.signer(s.response.signers[0]))
  }

  function WithTsaCertificates(c: CmsValue, response: CmsValue): CmsValue {
    if response.certificates.None? then c
    else c.(certificates := Some(AddMissing(Certificates(c), response.certificates.value)))
  }

  function Attach(enc: Encoder, c: CmsValue, s: Stamp): Attached {
    if IsToken(s) then Push(c, StampAttribute(enc, s))
    else if s.response.signers == [] then Attached(c, Err(NoSigner))
    else Push(WithTsaCertificates(c, s.response), StampAttribute(enc, s))
  }

  // ---------------------------------------------------------------------- attached in place

  class SignedData {
    var contentType: Oid
    var certificates: Option<seq<Cert>>
    var signerInfos: seq<SignerInfo>
    var rest: bytes

    constructor (c: CmsValue)
      ensures Value() == c
    {
      contentType, certificates, signerInfos, rest := c.contentType, c.certificates, c.signers, c.rest;
    }

    function Value(): CmsValue
      reads this
    {
      CmsValue(contentType, certificates, signerInfos, rest)
    }

    method PushUnsignedAttribute(attr: Attribute) returns (r: Result<()>)
      modifies this`signerInfos
      ensures Attached(Value(), r) == Push(old(Value()), attr)
    {
      if |signerInfos| == 0 {
        return Err(NoSigner);
      }
      var signer := signerInfos[0];
      match signer.unsignedAttributes {
        case Some(attrs) =>
          signer := signer.(unsignedAttributes := Some(attrs + [attr]));
        case None =>
          var attrs := [];
          attrs := attrs + [attr];
          assert attrs == [] + [attr];
          signer := signer.(unsignedAttributes := Some(attrs));
      }
      signerInfos := signerInfos[0 := signer];
      return Ok(());
    }

    method AttachRfc3161(enc: Encoder, token: CmsValue) returns (r: Result<()>)
      modifies this`signerInfos
      ensures Attached(Value(), r) == Attach(enc, old(Value()), Rfc3161(token))
    {
      r := PushUnsignedAttribute(Attribute(SPC_RFC3161, enc.token(token)));
    }

    method AttachAuthenticode(enc: Encoder, response: CmsValue) returns (r: Result<()>)
      modifies this`signerInfos, this`certificates
      ensures Attached(Value(), r) == Attach(enc, old(Value()), Legacy(response))
    {
      if response.contentType == TST_INFO {
        r := AttachRfc3161(enc, response);
        return;
      }
      if |response.signers| == 0 {
        return Err(NoSigner);
      }
      var attr := Attribute(PKCS9_COUNTER_SIGNATURE, enc.signer(response.signers[0]));
      if response.certificates.Some? {
        var tsaCerts := response.certificates.value;
        ghost var before := Certificates(Value());
        if certificates.None? {
          certificates := Some([]);
        }
        assert tsaCerts[0..] == tsaCerts;
        for i := 0 to |tsaCerts|
          invariant certificates.Some? && signerInfos == old(signerInfos)
          invariant AddMissing(before, tsaCerts) == AddMissing(certificates.value, tsaCerts[i..])
        {
          assert tsaCerts[i..][0] == tsaCerts[i] && tsaCerts[i..][1..] == tsaCerts[i + 1..];
          if tsaCerts[i] !in certificates.value {
            certificates := Some(certificates.value + [tsaCerts[i]]);
          }
        }
      }
      r := PushUnsignedAttribute(attr);
    }
  }

  // -------------------------------------------------------------------------- over any run

  /** Attachments one after the other, up to the first that fails. */
  function AttachAll(enc: Encoder, c: CmsValue, stamps: seq<Stamp>): Result<CmsValue> {
    if stamps == [] then Ok(c)
    else
      var before :- AttachAll(enc, c, stamps[..|stamps| - 1]);
      var a := Attach(enc, before, stamps[|stamps| - 1]);
      var _ :- a.outcome;
      Ok(a.cms)
  }

  /** `after` is `before` followed by certificates that are new and pairwise distinct. */
  ghost predicate GrownBy(before: seq<Cert>, after: seq<Cert>) {
    && before <= after
    && Distinct(after[|before|..])
    && forall i :: |before| <= i < |after| ==> after[i] !in before
  }

  lemma {:induction false} AddMissingGrows(base: seq<Cert>, certs: seq<Cert>, more: seq<Cert>)
    requires GrownBy(base, certs)
    ensures GrownBy(base, AddMissing(certs, more)) && certs <= AddMissing(certs, more)
    ensures forall c :: c in more ==> c in AddMissing(certs, more)
    ensures forall c :: c in AddMissing(certs, more) ==> c in certs || c in more
    decreases |more|
  {
    if more != [] {
      var next := if more[0] in certs then certs else certs + [more[0]];
      if more[0] !in certs {
        assert next[|base|..] == certs[|base|..] + [more[0]];
        assert forall i :: |base| <= i < |certs| ==> certs[i] in certs;
        assert forall i :: 0 <= i < |base| ==> base[i] == certs[i] && base[i] in certs;
      }
      AddMissingGrows(base, next, more[1..]);
      assert more[0] in next;
      var out := AddMissing(certs, more);
      forall c | c in more ensures c in out {
        if c == more[0] {
          var k :| 0 <= k < |next| && next[k] == c;
          assert out[k] == c;
        }
      }
    }
  }

  /** `a` occurs before any occurrence of `b`. */
  ghost predicate Precedes(s: seq<Cert>, a: Cert, b: Cert) {
    exists k :: 0 <= k < |s| && s[k] == a && b !in s[..k + 1]
  }

  lemma PrecedesInTail(s: seq<Cert>, a: Cert, b: Cert)
    requires s != [] && s[0] != b && Precedes(s[1..], a, b)
    ensures Precedes(s, a, b)
  {
    var k :| 0 <= k < |s[1..]| && s[1..][k] == a && b !in s[1..][..k + 1];
    assert s[..k + 2] == [s[0]] + s[1..][..k + 1];
    assert s[k + 1] == a && b !in s[..(k + 1) + 1];
  }

  /** What is added keeps the order in which it first occurs. */
  lemma {:induction false} AddedInOrder(certs: seq<Cert>, more: seq<Cert>)
    ensures var out := AddMissing(certs, more);
      forall i, j :: |certs| <= i < j < |out| ==> Precedes(more, out[i], out[j])
    decreases |more|
  {
    hide Precedes;
    var out := AddMissing(certs, more);
    if more != [] {
      var next := if more[0] in certs then certs else certs + [more[0]];
      AddedInOrder(next, more[1..]);
      assert next[|next|..] == [];
      AddMissingGrows(next, next, more[1..]);
      forall i, j | |certs| <= i < j < |out| ensures Precedes(more, out[i], out[j]) {
        assert out[j] !in next;
        if i < |next| {
          First(more, out[j]);
        } else {
          PrecedesInTail(more, out[i], out[j]);
        }
      }
    }
  }

  lemma First(s: seq<Cert>, b: Cert)
    requires s != [] && s[0] != b
    ensures Precedes(s, s[0], b)
  {
    assert b !in s[..0 + 1];
  }

  /** What no attachment touches: everything but the first signer's unsigned attributes and
      the certificate set. */
  ghost predicate SameButUnsigned(before: CmsValue, after: CmsValue) {
    && before.contentType == after.contentType && before.rest == after.rest
    && |before.signers| == |after.signers| > 0
    && before.signers[1..] == after.signers[1..]
    && before.signers[0].(unsignedAttributes := None) == after.signers[0].(unsignedAttributes := None)
  }

  /** Only a legacy response that is neither a TSTInfo nor signed cannot be attached. */
  predicate Attachable(s: Stamp) {
    s.Legacy? && s.response.contentType != TST_INFO ==> s.response.signers != []
  }

  /** A token goes in whole under the RFC 3161 identifier, requested or answered to a legacy
      request; the first signer of any other response goes in as a counter-signature. */
  predicate StampedAs(enc: Encoder, s: Stamp, a: Attribute) {
    && (s.Rfc3161? ==> a == Attribute(SPC_RFC3161, enc.token(s.token)))
    && (s.Legacy? && s.response.contentType == TST_INFO ==> a == Attribute(SPC_RFC3161, enc.token(s.response)))
    && (s.Legacy? && s.response.contentType != TST_INFO ==>
          && s.response.signers != []
          && a == Attribute(PKCS9_COUNTER_SIGNATURE, enc.signer(s.response.signers[0])))
  }

  /** The certificates that come with a counter-signature; a token keeps its own. */
  predicate BringsSet(s: Stamp) {
    s.Legacy? && s.response.contentType != TST_INFO && s.response.certificates.Some?
  }

  predicate BringsCertificate(s: Stamp, t: Cert) {
    BringsSet(s) && t in s.response.certificates.value
  }

  lemma AttachStep(enc: Encoder, base: seq<Cert>, c: CmsValue, s: Stamp)
    requires c.signers != [] && GrownBy(base, Certificates(c))
    ensures Attach(enc, c, s).outcome.Ok? <==> Attachable(s)
    ensures Attach(enc, c, s).outcome.Ok? ==>
      var d := Attach(enc, c, s).cms;
      && SameButUnsigned(c, d)
      && (exists a :: StampedAs(enc, s, a) && Attributes(d.signers[0]) == Attributes(c.signers[0]) + [a])
      && GrownBy(base, Certificates(d)) && Certificates(c) <= Certificates(d)
      && (d.certificates.Some? <==> c.certificates.Some? || BringsSet(s))
      && (forall t :: BringsCertificate(s, t) ==> t in Certificates(d))
      && (forall t :: t in Certificates(d) ==> t in Certificates(c) || BringsCertificate(s, t))
  {
    if s.Legacy? && s.response.certificates.Some? {
      AddMissingGrows(base, Certificates(c), s.response.certificates.value);
    }
    if Attachable(s) {
      assert StampedAs(enc, s, StampAttribute(enc, s));
    }
  }

  /** The original certificates are a prefix, none is introduced twice or out of nowhere, every
      one that came with a counter-signature is present, the first signer gained one unsigned
      attribute per attachment, in order, and nothing else changed. */
  ghost predicate OnlyAdded(enc: Encoder, c: CmsValue, stamps: seq<Stamp>, d: CmsValue) {
    && SameButUnsigned(c, d)
    && GainedInOrder(enc, stamps, Attributes(c.signers[0]), Attributes(d.signers[0]))
    && GrownBy(Certificates(c), Certificates(d))
    && (d.certificates.Some? <==> c.certificates.Some? || exists s :: s in stamps && BringsSet(s))
    && (forall s, t :: s in stamps && BringsCertificate(s, t) ==> t in Certificates(d))
    && (forall t :: t in Certificates(d) ==> t in Certificates(c) || exists s :: s in stamps && BringsCertificate(s, t))
  }

  ghost predicate GainedInOrder(enc: Encoder, stamps: seq<Stamp>, before: seq<Attribute>, after: seq<Attribute>) {
    && before <= after && |after| == |before| + |stamps|
    && forall i :: 0 <= i < |stamps| ==> StampedAs(enc, stamps[i], after[|before| + i])
  }

  /** A failing attachment, to a SignedData without signers or of a response without one,
      leaves everything but the certificate set; that has grown only if the response had a signer. */
  lemma FailedAttachment(enc: Encoder, c: CmsValue, s: Stamp)
    ensures Attach(enc, c, s).outcome.Err? <==> c.signers == [] || !Attachable(s)
    ensures Attach(enc, c, s).outcome.Err? ==>
      var d := Attach(enc, c, s).cms;
      && Attach(enc, c, s).outcome.error == NoSigner
      && d.(certificates := c.certificates) == c && GrownBy(Certificates(c), Certificates(d))
      && (!Attachable(s) || !BringsSet(s) ==> d == c)
      && (Attachable(s) ==> forall t :: BringsCertificate(s, t) ==> t in Certificates(d))
      && (forall t :: t in Certificates(d) ==> t in Certificates(c) || BringsCertificate(s, t))
  {
    assert Certificates(c)[|Certificates(c)|..] == [];
    if BringsSet(s) {
      AddMissingGrows(Certificates(c), Certificates(c), s.response.certificates.value);
    }
  }

  lemma OneMore(enc: Encoder, c: CmsValue, before: seq<Stamp>, s: Stamp, d: CmsValue, e: CmsValue)
    requires OnlyAdded(enc, c, before, d) && Attach(enc, d, s).outcome.Ok? && Attach(enc, d, s).cms == e
    ensures OnlyAdded(enc, c, before + [s], e)
  {
    AttachStep(enc, Certificates(c), d, s);
    var stamps := before + [s];
    forall r, t | r in stamps && BringsCertificate(r, t) ensures t in Certificates(e) {
      if r in before {
        var k :| 0 <= k < |Certificates(d)| && Certificates(d)[k] == t;
        assert Certificates(e)[k] == t;
      }
    }
    forall t | t in Certificates(e) && t !in Certificates(c)
        ensures exists r :: r in stamps && BringsCertificate(r, t) {
      if t in Certificates(d) {
        var r :| r in before && BringsCertificate(r, t);
        assert r in stamps;
      } else {
        assert s in stamps;
      }
    }
  }

  /** Over any sequence of attachments to a SignedData with a signer: it fails exactly at a
      legacy response without a signer, and otherwise only adds. */
  lemma {:induction false} StampsOnlyAdd(enc: Encoder, c: CmsValue, stamps: seq<Stamp>)
    requires c.signers != []
    ensures AttachAll(enc, c, stamps).Ok? <==> forall s :: s in stamps ==> Attachable(s)
    ensures AttachAll(enc, c, stamps).Ok? ==> OnlyAdded(enc, c, stamps, AttachAll(enc, c, stamps).value)
    decreases |stamps|
  {
    hide Attach, OnlyAdded;
    if stamps == [] {
      NothingAdded(enc, c);
    } else {
      var n := |stamps| - 1;
      var before, s := stamps[..n], stamps[n];
      assert stamps == before + [s];
      StampsOnlyAdd(enc, c, before);
      if AttachAll(enc, c, before).Ok? {
        var d := AttachAll(enc, c, before).value;
        AttachesWhen(enc, c, before, s, d);
        var a := Attach(enc, d, s);
        if a.outcome.Ok? {
          OneMore(enc, c, before, s, d, a.cms);
        }
      }
    }
  }

  lemma NothingAdded(enc: Encoder, c: CmsValue)
    requires c.signers != []
    ensures OnlyAdded(enc, c, [], c)
  {
    assert Certificates(c)[|Certificates(c)|..] == [];
  }

  lemma AttachesWhen(enc: Encoder, c: CmsValue, before: seq<Stamp>, s: Stamp, d: CmsValue)
    requires OnlyAdded(enc, c, before, d)
    ensures Attach(enc, d, s).outcome.Ok? <==> Attachable(s)
  {
  }
}
