/** Verification of a signed file, and the end-to-end result: what was signed is what the
    pipeline checks. Hashing, CMS decoding and signature checks are functions of octets. */
module VerifyPipeline {
  import opened Bytes
  import opened DerCodec
  import opened DerItems
  import opened Spine
  import opened ContentRewrite
  import opened Envelope
  import opened RoundTrip
  import opened ExtractContent
  import opened Files
  import opened PeFormat
  import opened PeLayout
  import opened PeLaws
  import opened PeRuns
  import Chain

  type Signer = bytes

  datatype ParsedCms = ParsedCms(content: Option<bytes>, signers: seq<Signer>, certificates: seq<Cert>, rest: bytes)

  datatype Library = Library(
    parse: bytes -> Option<ParsedCms>,               // the generic CMS parser
    nested: bytes -> Option<seq<bytes>>,             // nested signatures of a wrapped blob
    decodeSpc: bytes -> Option<(Oid, bytes)>,        // digest algorithm and digest of a content
    hash: (Oid, bytes) -> Option<bytes>,             // None for an unsupported algorithm
    messageDigestOk: (Signer, bytes) -> bool,
    signatureOk: (Signer, ParsedCms) -> bool,
    signerCert: (ParsedCms, Signer) -> Option<Cert>,
    signedBy: Chain.Relation,
    timestampOk: bytes -> Option<bool>)

  datatype Options = Options(caCerts: seq<Cert>, ignoreTimestamp: bool, leafHashOk: Option<ParsedCms -> bool>)

  datatype SignatureResult = SignatureResult(
    index: nat, digestOk: bool, signatureOk: bool,
    chainOk: Option<bool>, timestampOk: Option<bool>, leafHashOk: Option<bool>)

  predicate OkOr(o: Option<bool>) {
    o.Some? ==> o.value
  }

  predicate FlagsGood(r: SignatureResult) {
    r.digestOk && r.signatureOk && OkOr(r.chainOk) && OkOr(r.timestampOk) && OkOr(r.leafHashOk)
  }

  predicate AllOk(results: seq<SignatureResult>) {
    results != [] && forall r :: r in results ==> FlagsGood(r)
  }

  // --------------------------------------------------------------------------- the checks

  /** The digest the content commits to is the file's. */
  predicate DigestMatches(lib: Library, data: bytes, pe: PeInfo, cms: ParsedCms) {
    && cms.content.Some?
    && lib.decodeSpc(cms.content.value).Some?
    && var spc := lib.decodeSpc(cms.content.value).value;
       lib.hash(spc.0, DigestStream(data, pe)) == Some(spc.1)
  }

  /** There is a signer, and each one's message digest is over the value of the content
      SEQUENCE and its signature verifies. */
  predicate SignersVerify(lib: Library, cms: ParsedCms) {
    && cms.content.Some? && DerSequenceContent(cms.content.value).Ok?
    && cms.signers != []
    && forall s :: s in cms.signers ==>
         lib.messageDigestOk(s, DerSequenceContent(cms.content.value).value) && lib.signatureOk(s, cms)
  }

  /** The first signer whose certificate is in the bag decides. */
  function ChainOk(lib: Library, cms: ParsedCms, signers: seq<Signer>, caCerts: seq<Cert>): bool {
    if signers == [] then false
    else
      match lib.signerCert(cms, signers[0])
      case Some(cert) => Chain.Trusted(lib.signedBy, cert, cms.certificates, caCerts)
      case None => ChainOk(lib, cms, signers[1..], caCerts)
  }

  /** From the certificate of signer `i`, the first that has one in the bag, the greedy path over
      bag and authorities reaches an authority within the depth limit. */
  ghost predicate AnchoredBy(lib: Library, cms: ParsedCms, caCerts: seq<Cert>, i: nat, path: seq<Cert>) {
    && i < |cms.signers|
    && (forall j :: 0 <= j < i ==> lib.signerCert(cms, cms.signers[j]).None?)
    && Chain.IsGreedyPath(lib.signedBy, path, cms.certificates + caCerts, caCerts)
    && |path| <= 20 && lib.signerCert(cms, cms.signers[i]) == Some(path[0])
  }

  ghost predicate ChainReaches(lib: Library, cms: ParsedCms, caCerts: seq<Cert>) {
    exists i, path :: AnchoredBy(lib, cms, caCerts, i, path)
  }

  /** The verdict on the chain, for every relation and all certificates. */
  lemma ChainVerdict(lib: Library, cms: ParsedCms, caCerts: seq<Cert>)
    ensures ChainOk(lib, cms, cms.signers, caCerts) <==> ChainReaches(lib, cms, caCerts)
  {
    var i := FirstWithCert(lib, cms, caCerts, 0);
    if i < |cms.signers| {
      var cert := lib.signerCert(cms, cms.signers[i]).value;
      Chain.WalkIsGreedy(lib.signedBy, cert, cms.certificates, caCerts);
      if ChainOk(lib, cms, cms.signers, caCerts) {
        var path :| Chain.IsGreedyPath(lib.signedBy, path, cms.certificates + caCerts, caCerts)
          && path[0] == cert && |path| <= 20;
        assert AnchoredBy(lib, cms, caCerts, i, path);
      }
    }
    if k, path :| AnchoredBy(lib, cms, caCerts, k, path) {
      assert k == i;
    }
  }

  /** The signer that decides, from signer `k` on; one past the last if there is none. */
  lemma {:induction false} FirstWithCert(lib: Library, cms: ParsedCms, caCerts: seq<Cert>, k: nat) returns (i: nat)
    requires k <= |cms.signers|
    ensures k <= i <= |cms.signers| && forall j :: k <= j < i ==> lib.signerCert(cms, cms.signers[j]).None?
    ensures i < |cms.signers| ==> lib.signerCert(cms, cms.signers[i]).Some?
    ensures ChainOk(lib, cms, cms.signers[k..], caCerts) <==>
      && i < |cms.signers|
      && Chain.Trusted(lib.signedBy, lib.signerCert(cms, cms.signers[i]).value, cms.certificates, caCerts)
    decreases |cms.signers| - k
  {
    i := k;
    if k < |cms.signers| && lib.signerCert(cms, cms.signers[k]).None? {
      assert cms.signers[k..][1..] == cms.signers[k + 1..];
      i := FirstWithCert(lib, cms, caCerts, k + 1);
    }
  }

  method VerifyDigest(f: File, pe: PeInfo, lib: Library, cms: ParsedCms) returns (ok: bool)
    modifies f`pos
    ensures ok == DigestMatches(lib, f.data, pe, cms)
  {
    if cms.content.None? {
      return false;
    }
    var spc := lib.decodeSpc(cms.content.value);
    if spc.None? {
      return false;
    }
    var hasher := new Hasher();
    AuthenticodeDigest(f, pe, hasher);
    assert hasher.absorbed == DigestStream(f.data, pe);
    var actual := lib.hash(spc.value.0, hasher.absorbed);
    return actual == Some(spc.value.1);
  }

  method VerifyCryptoSignature(lib: Library, cms: ParsedCms) returns (result: bool)
    ensures result == SignersVerify(lib, cms)
  {
    if cms.content.None? {
      return false;
    }
    var contentValue := DerSequenceContent(cms.content.value);
    if contentValue.Err? {
      return false;
    }
    var ok := false;
    for i := 0 to |cms.signers|
      invariant ok <==> i > 0
      invariant forall s :: s in cms.signers[..i] ==>
        lib.messageDigestOk(s, contentValue.value) && lib.signatureOk(s, cms)
    {
      var signer := cms.signers[i];
      if !lib.messageDigestOk(signer, contentValue.value) {
        return false;
      }
      if !lib.signatureOk(signer, cms) {
        return false;
      }
      ok := true;
    }
    return ok;
  }

  method VerifyChain(lib: Library, cms: ParsedCms, caCerts: seq<Cert>) returns (ok: bool)
    ensures ok == ChainOk(lib, cms, cms.signers, caCerts)
  {
    assert cms.signers[0..] == cms.signers;
    for i := 0 to |cms.signers|
      invariant ChainOk(lib, cms, cms.signers, caCerts) == ChainOk(lib, cms, cms.signers[i..], caCerts)
    {
      assert cms.signers[i..][1..] == cms.signers[i + 1..];
      var cert := lib.signerCert(cms, cms.signers[i]);
      if cert.Some? {
        ok := Chain.VerifyChainToCa(lib.signedBy, cert.value, cms.certificates, caCerts);
        return;
      }
    }
    return false;
  }

  // -------------------------------------------------------------------------- the pipeline

  function VerifyBlob(lib: Library, opts: Options, data: bytes, pe: PeInfo, index: nat,
      blob: bytes): Result<SignatureResult>
  {
    var _ :- CheckEnvelope(blob);
    var wrapped :- Wrap(blob);
    if lib.parse(wrapped).None? then Err(CmsParse)
    else
      var cms := lib.parse(wrapped).value;
      Ok(SignatureResult(
        index, DigestMatches(lib, data, pe, cms), SignersVerify(lib, cms),
        if opts.caCerts != [] then Some(ChainOk(lib, cms, cms.signers, opts.caCerts)) else None,
        if opts.ignoreTimestamp then None else lib.timestampOk(wrapped),
        if opts.leafHashOk.Some? then Some(opts.leafHashOk.value(cms)) else None))
  }

  /** The blobs in order, stopping at the first that fails outright. */
  function VerifyBlobs(lib: Library, opts: Options, data: bytes, pe: PeInfo,
      blobs: seq<bytes>): Result<seq<SignatureResult>>
  {
    if blobs == [] then Ok([])
    else
      var n := |blobs| - 1;
      var before :- VerifyBlobs(lib, opts, data, pe, blobs[..n]);
      var last :- VerifyBlob(lib, opts, data, pe, n, blobs[n]);
      Ok(before + [last])
  }

  function CollectBlobs(lib: Library, der: bytes): Result<seq<bytes>> {
    var wrapped :- Wrap(der);
    if lib.nested(wrapped).None? then Err(CmsParse) else Ok([der] + lib.nested(wrapped).value)
  }

  function Verified(lib: Library, opts: Options, data: bytes): Result<seq<SignatureResult>> {
    var pe :- ParsePe(data);
    var der :- ExtractSignature(data, pe);
    if der.None? then Err(NoSignature)
    else
      var blobs :- CollectBlobs(lib, der.value);
      VerifyBlobs(lib, opts, data, pe, blobs)
  }

  method VerifyOne(f: File, pe: PeInfo, lib: Library, opts: Options, index: nat, blob: bytes)
      returns (r: Result<SignatureResult>)
    modifies f`pos
    ensures r == VerifyBlob(lib, opts, f.data, pe, index, blob)
  {
    var _ :- CheckEnvelope(blob);
    var wrapped :- Wrap(blob);
    var parsed := lib.parse(wrapped);
    if parsed.None? {
      return Err(CmsParse);
    }
    var cms := parsed.value;
    var result := SignatureResult(index, false, false, None, None, None);
    var digestOk := VerifyDigest(f, pe, lib, cms);
    result := result.(digestOk := digestOk);
    var signatureOk := VerifyCryptoSignature(lib, cms);
    result := result.(signatureOk := signatureOk);
    if opts.caCerts != [] {
      var chainOk := VerifyChain(lib, cms, opts.caCerts);
      result := result.(chainOk := Some(chainOk));
    }
    if !opts.ignoreTimestamp {
      result := result.(timestampOk := lib.timestampOk(wrapped));
    }
    if opts.leafHashOk.Some? {
      result := result.(leafHashOk := Some(opts.leafHashOk.value(cms)));
    }
    return Ok(result);
  }

  lemma {:induction false} FailureStops(lib: Library, opts: Options, data: bytes, pe: PeInfo, blobs: seq<bytes>, i: nat)
    requires i <= |blobs| && VerifyBlobs(lib, opts, data, pe, blobs[..i]).Err?
    ensures VerifyBlobs(lib, opts, data, pe, blobs) == VerifyBlobs(lib, opts, data, pe, blobs[..i])
    decreases |blobs|
  {
    hide VerifyBlob;
    if i == |blobs| {
      assert blobs[..i] == blobs;
    } else {
      var n := |blobs| - 1;
      assert blobs[..n][..i] == blobs[..i];
      FailureStops(lib, opts, data, pe, blobs[..n], i);
    }
  }

  method VerifyPeRich(f: File, lib: Library, opts: Options) returns (r: Result<seq<SignatureResult>>)
    modifies f`pos
    ensures r == Verified(lib, opts, f.data)
  {
    hide VerifyBlob, ParsePe, ExtractSignature, CollectBlobs;
    var pe :- ParsePeFile(f);
    var der :- ExtractSignatureFrom(f, pe);
    if der.None? {
      return Err(NoSignature);
    }
    var blobs :- CollectBlobs(lib, der.value);
    var signatures := [];
    for index := 0 to |blobs|
      invariant VerifyBlobs(lib, opts, f.data, pe, blobs[..index]) == Ok(signatures)
    {
      assert blobs[..index + 1][..index] == blobs[..index];
      var result := VerifyOne(f, pe, lib, opts, index, blobs[index]);
      if result.Err? {
        FailureStops(lib, opts, f.data, pe, blobs, index + 1);
        return Err(result.error);
      }
      signatures := signatures + [result.value];
    }
    assert blobs[..|blobs|] == blobs;
    return Ok(signatures);
  }

  const DEFAULT_OPTIONS := Options([], false, None)

  /** The outcome of the basic check: default options, and every flag of every signature. */
  predicate PeVerifies(lib: Library, data: bytes) {
    Verified(lib, DEFAULT_OPTIONS, data).Ok? && AllOk(Verified(lib, DEFAULT_OPTIONS, data).value)
  }

  method VerifyPe(f: File, lib: Library) returns (r: Result<()>)
    modifies f`pos
    ensures r.Ok? <==> PeVerifies(lib, f.data)
    ensures r.Err? ==> Verified(lib, DEFAULT_OPTIONS, f.data) == Err(r.error) || r.error == VerificationFailed
  {
    var results :- VerifyPeRich(f, lib, DEFAULT_OPTIONS);
    if AllOk(results) {
      return Ok(());
    }
    return Err(VerificationFailed);
  }

  // ------------------------------------------------------------------------- end to end

  /** The content commits to the hash of the stream. */
  predicate CommitsTo(lib: Library, content: bytes, stream: bytes) {
    && lib.decodeSpc(content).Some?
    && lib.hash(lib.decodeSpc(content).value.0, stream) == Some(lib.decodeSpc(content).value.1)
  }

  /** There are signers, and for every one the message digest over `value` and the signature verify. */
  predicate SignedOver(lib: Library, cms: ParsedCms, value: bytes) {
    && cms.signers != []
    && forall i :: 0 <= i < |cms.signers| ==>
         lib.messageDigestOk(cms.signers[i], value) && lib.signatureOk(cms.signers[i], cms)
  }

  /** What verification must report for the signature at `index`, on a file with this digest
      stream: `built` is its wrapped form, `cms` what that parses to, and `value` the octets,
      if any, that the message digests are taken over. */
  ghost predicate Reports(lib: Library, opts: Options, r: SignatureResult, index: nat, stream: bytes, built: bytes,
      cms: ParsedCms, value: Option<bytes>)
  {
    && r.index == index
    && (r.digestOk <==> cms.content.Some? && CommitsTo(lib, cms.content.value, stream))
    && (r.signatureOk <==> value.Some? && SignedOver(lib, cms, value.value))
    && (opts.caCerts == [] ==> r.chainOk == None)
    && (opts.caCerts != [] ==> r.chainOk.Some? && (r.chainOk.value <==> ChainReaches(lib, cms, opts.caCerts)))
    && (opts.ignoreTimestamp ==> r.timestampOk == None)
    && (!opts.ignoreTimestamp ==> r.timestampOk == lib.timestampOk(built))
    && (opts.leafHashOk.None? ==> r.leafHashOk == None)
    && (opts.leafHashOk.Some? ==> r.leafHashOk == Some(opts.leafHashOk.value(cms)))
  }

  /** The envelope passes, and the wrapped form parses. */
  predicate Opens(lib: Library, blob: bytes) {
    CheckEnvelope(blob).Ok? && Wrap(blob).Ok? && lib.parse(Wrap(blob).value).Some?
  }

  /** The value of the content, where it is a SEQUENCE. */
  function SignedValue(cms: ParsedCms): Option<bytes> {
    if cms.content.Some? && DerSequenceContent(cms.content.value).Ok?
    then Some(DerSequenceContent(cms.content.value).value) else None
  }

  ghost predicate ReportsBlob(lib: Library, opts: Options, r: SignatureResult, index: nat, stream: bytes, blob: bytes)
    requires Opens(lib, blob)
  {
    var built := Wrap(blob).value;
    var cms := lib.parse(built).value;
    Reports(lib, opts, r, index, stream, built, cms, SignedValue(cms))
  }

  /** Any octets at any index, under any options: there is a result exactly when they open, and
      then each of its flags is as it must be. */
  lemma BlobIsReported(lib: Library, opts: Options, data: bytes, pe: PeInfo, index: nat, blob: bytes)
    ensures VerifyBlob(lib, opts, data, pe, index, blob).Ok? <==> Opens(lib, blob)
    ensures Opens(lib, blob) ==>
      ReportsBlob(lib, opts, VerifyBlob(lib, opts, data, pe, index, blob).value, index, DigestStream(data, pe), blob)
  {
    hide CheckEnvelope, Rewrite, DigestStream, ChainOk, ChainReaches, DerSequenceContent;
    if Opens(lib, blob) {
      var cms := lib.parse(Wrap(blob).value).value;
      ChainVerdict(lib, cms, opts.caCerts);
      if SignedValue(cms).Some? {
        EverySigner(lib, cms, SignedValue(cms).value);
      }
    }
  }

  lemma EverySigner(lib: Library, cms: ParsedCms, value: bytes)
    ensures SignedOver(lib, cms, value) <==>
      cms.signers != [] && forall s :: s in cms.signers ==> lib.messageDigestOk(s, value) && lib.signatureOk(s, cms)
  {
  }

  /** What a signer built: a canonical RFC 5652 signature of version 3 around one content
      SEQUENCE, and the same in native form. */
  predicate SignerOutput(built: bytes, content: bytes, sig: bytes) {
    && WellNested(built) && Canonical(built) && |built| < U32
    && Parse(built).value.body == Emit(OCTET_STRING, content)
    && ValidTree(Parse(built).value) && Parse(built).value.signedData.pre[0] == VERSION_3
    && IsTlv(content) && |content| < U32 && content[0] == SEQUENCE
    && Normalize(built) == Ok(sig) && |sig| < U32
  }

  /** Every RFC 5652 signature printed in DER around one content SEQUENCE is such an output:
      normalizing it prints its native tree. */
  lemma PrintedIsSignerOutput(t: Tree, content: bytes)
    requires ValidTree(t) && t.signedData.pre[0] == VERSION_3 && t.body == Emit(OCTET_STRING, content)
    requires IsTlv(content) && content[0] == SEQUENCE
    requires |Print(t)| < U32 && |Print(t.(body := content))| < U32
    ensures HasFirst(t.body) && SignerOutput(Print(t), content, Print(Edit(t, false)))
  {
    hide Rewrite, Parse, Canonical, LenOctets, ReadHeader, Print;
    BodyFits(t);
    EmitLength(OCTET_STRING, content);
    EmitIsTlv(OCTET_STRING, content);
    TlvIsItsFirst(Emit(OCTET_STRING, content));
    FormIsFixpoint(t, true);
    PrintedForm(t, false);
    CanonicalReprints(Print(t), true);
    OpposedVersions();
    assert Edit(t, false).signedData.pre[0] != t.signedData.pre[0];
    VersionsPrintAlike(t, content);
  }

  lemma BodyFits(t: Tree)
    ensures |t.body| < |Print(t)|
  {
    hide LenOctets;
  }

  /** The two versions have the same length. */
  lemma VersionsPrintAlike(t: Tree, content: bytes)
    requires ValidTree(t) && t.signedData.pre[0] == VERSION_3 && HasFirst(t.body) && EditBody(t.body, false) == content
    ensures |Print(Edit(t, false))| == |Print(t.(body := content))|
  {
    hide LenOctets, EditBody;
    var u, e := t.(body := content), Edit(t, false);
    assert e.signedData.pre[1..] == t.signedData.pre[1..];
    assert |Flat(e.signedData.pre)| == |Flat(t.signedData.pre)|;
    assert EncapContent(e) == EncapContent(u);
    assert |SignedDataContent(e)| == |SignedDataContent(u)|;
    assert |InfoContent(e)| == |InfoContent(u)|;
  }

  /** The embedded form is native, and wrapping it gives back what the signer built. */
  lemma BuiltIsRecovered(built: bytes, content: bytes, sig: bytes)
    requires SignerOutput(built, content, sig)
    ensures WellNested(sig) && Native(Parse(sig).value) && Parse(sig).value.body == content
    ensures Wrap(sig) == Ok(built)
  {
    hide Rewrite, Parse, Canonical, LenOctets, ReadHeader, Print;
    var t := Parse(built).value;
    EmitIsTlv(OCTET_STRING, content);
    TlvIsItsFirst(Emit(OCTET_STRING, content));
    TlvIsItsFirst(content);
    WrapUndoesNormalize(built);
    RewriteRefinesTreeEdit(built, false);
    var e := Edit(t, false);
    EditIsValid(t, false);
    assert e.body == content;
  }

  /** A result is there for every blob, in order, or for none. */
  lemma {:induction false} BlobResults(lib: Library, opts: Options, data: bytes, pe: PeInfo, blobs: seq<bytes>)
    ensures VerifyBlobs(lib, opts, data, pe, blobs).Ok? <==>
      forall i :: 0 <= i < |blobs| ==> VerifyBlob(lib, opts, data, pe, i, blobs[i]).Ok?
    ensures VerifyBlobs(lib, opts, data, pe, blobs).Ok? ==>
      var v := VerifyBlobs(lib, opts, data, pe, blobs).value;
      && |v| == |blobs|
      && forall i :: 0 <= i < |blobs| ==> VerifyBlob(lib, opts, data, pe, i, blobs[i]) == Ok(v[i])
    decreases |blobs|
  {
    hide VerifyBlob;
    if blobs != [] {
      var n := |blobs| - 1;
      var before := blobs[..n];
      BlobResults(lib, opts, data, pe, before);
      assert forall i :: 0 <= i < n ==> before[i] == blobs[i];
    }
  }

  /** A signature as its signer made it: what was built, the content it was built around, what
      was embedded, and what the built octets parse to. */
  datatype Signature = Signature(built: bytes, content: bytes, embedded: bytes, cms: ParsedCms)

  predicate Genuine(lib: Library, s: Signature) {
    && SignerOutput(s.built, s.content, s.embedded)
    && lib.parse(s.built) == Some(s.cms) && s.cms.content == Some(s.content)
  }

  /** What is reported for a genuine signature: the message digests are taken over the value of
      the content it was built around. */
  ghost predicate ReportsSignature(lib: Library, opts: Options, r: SignatureResult, index: nat, stream: bytes,
      s: Signature)
    requires IsTlv(s.content)
  {
    Reports(lib, opts, r, index, stream, s.built, s.cms, Some(Content(s.content)))
  }

  /** With any padding the embedded form opens, to what was built. */
  lemma GenuineOpens(lib: Library, s: Signature, trailer: bytes)
    requires Genuine(lib, s)
    ensures Opens(lib, s.embedded + trailer) && Wrap(s.embedded + trailer) == Ok(s.built)
    ensures SignedValue(s.cms) == Some(Content(s.content))
  {
    hide Rewrite, Parse, Canonical, LenOctets, ReadHeader, CheckEnvelope;
    BuiltIsRecovered(s.built, s.content, s.embedded);
    PaddingIsIgnored(s.embedded, trailer);
    SequenceValue(s.content, []);
    assert s.content + [] == s.content;
  }

  /** At any index and under any options, a genuine signature followed by any padding has a
      result, and each of its flags is as it must be. */
  lemma SignatureIsReported(lib: Library, opts: Options, data: bytes, pe: PeInfo, index: nat, s: Signature,
      trailer: bytes)
    requires Genuine(lib, s)
    ensures var r := VerifyBlob(lib, opts, data, pe, index, s.embedded + trailer);
      r.Ok? && ReportsSignature(lib, opts, r.value, index, DigestStream(data, pe), s)
  {
    hide Genuine, Opens, Reports, VerifyBlob, DigestStream;
    assert IsTlv(s.content) by { GenuineContent(lib, s); }
    GenuineOpens(lib, s, trailer);
    BlobIsReported(lib, opts, data, pe, index, s.embedded + trailer);
    assert lib.parse(s.built) == Some(s.cms) by { GenuineContent(lib, s); }
  }

  lemma GenuineContent(lib: Library, s: Signature)
    requires Genuine(lib, s)
    ensures IsTlv(s.content) && lib.parse(s.built) == Some(s.cms) && s.cms.content == Some(s.content)
  {
  }

  /** There are results, one for each blob in order, exactly when every blob opens. */
  lemma AllReported(lib: Library, opts: Options, data: bytes, pe: PeInfo, blobs: seq<bytes>)
    ensures var v := VerifyBlobs(lib, opts, data, pe, blobs);
      && (v.Ok? <==> forall i :: 0 <= i < |blobs| ==> Opens(lib, blobs[i]))
      && (v.Ok? ==>
            && |v.value| == |blobs|
            && forall i :: 0 <= i < |blobs| ==>
                 ReportsBlob(lib, opts, v.value[i], i, DigestStream(data, pe), blobs[i]))
  {
    hide VerifyBlob, VerifyBlobs, Opens, ReportsBlob, DigestStream;
    BlobResults(lib, opts, data, pe, blobs);
    forall i | 0 <= i < |blobs|
        ensures var r := VerifyBlob(lib, opts, data, pe, i, blobs[i]);
          && (r.Ok? <==> Opens(lib, blobs[i]))
          && (r.Ok? ==> ReportsBlob(lib, opts, r.value, i, DigestStream(data, pe), blobs[i])) {
      BlobIsReported(lib, opts, data, pe, i, blobs[i]);
    }
  }

  /** For any hash: on a file written with a signature, verification extracts it with its
      padding, accepts its envelope, parses exactly the octets the signer built, and reports
      on the input's digest stream and on the octets used at signing. Every nested blob is
      reported on the same stream, and one that does not open is all that can make it fail. */
  lemma EndToEnd(lib: Library, opts: Options, data: bytes, pe: PeInfo, s: Signature, nested: seq<bytes>)
    requires WellPlaced(data, pe) && Fits(pe, s.embedded) && Genuine(lib, s) && lib.nested(s.built) == Some(nested)
    ensures SignedImage(data, pe, s.embedded).Ok? && IsTlv(s.content)
    ensures var verdict, stream := Verified(lib, opts, SignedImage(data, pe, s.embedded).value), DigestStream(data, pe);
      && (verdict.Ok? <==> forall i :: 0 <= i < |nested| ==> Opens(lib, nested[i]))
      && (verdict.Ok? ==>
            var v := verdict.value;
            && |v| == 1 + |nested|
            && ReportsSignature(lib, opts, v[0], 0, stream, s)
            && forall i :: 0 <= i < |nested| ==> ReportsBlob(lib, opts, v[i + 1], i + 1, stream, nested[i]))
  {
    hide ParsePe, SignedImage, ExtractSignature, DigestStream, Genuine, Opens, Reports, VerifyBlobs, CertEntry, Rewrite;
    assert IsTlv(s.content) by { GenuineContent(lib, s); }
    ExtractAfterSign(data, pe, s.embedded);
    SigningKeepsDigest(data, pe, s.embedded);
    var padding := Zeros(Pad8(|s.embedded|));
    GenuineOpens(lib, s, padding);
    var signed, info := SignedImage(data, pe, s.embedded).value, SignedInfo(pe, s.embedded);
    var blobs := [s.embedded + padding] + nested;
    assert Verified(lib, opts, signed) == VerifyBlobs(lib, opts, signed, info, blobs);
    AllReported(lib, opts, signed, info, blobs);
    PrimaryAndNested(lib, blobs, s.embedded + padding, nested);
    assert lib.parse(s.built) == Some(s.cms) by { GenuineContent(lib, s); }
    forall i | 0 <= i < |nested| ensures blobs[i + 1] == nested[i] {
    }
  }

  lemma PrimaryAndNested(lib: Library, blobs: seq<bytes>, blob: bytes, nested: seq<bytes>)
    requires blobs == [blob] + nested && Opens(lib, blob)
    ensures (forall i :: 0 <= i < |blobs| ==> Opens(lib, blobs[i])) <==>
      forall i :: 0 <= i < |nested| ==> Opens(lib, nested[i])
  {
    hide Opens;
    if forall i :: 0 <= i < |blobs| ==> Opens(lib, blobs[i]) {
      forall i | 0 <= i < |nested| ensures Opens(lib, nested[i]) {
        assert blobs[i + 1] == nested[i];
      }
    }
  }

  // ------------------------------------------------------------------------ what is accepted

  /** The content commits to the hash of the stream, the signers verify over `value`, and so do
      the chain, the timestamp and the leaf hash, each where the options ask for it. */
  ghost predicate Good(lib: Library, opts: Options, stream: bytes, built: bytes, cms: ParsedCms, value: Option<bytes>) {
    && cms.content.Some? && CommitsTo(lib, cms.content.value, stream)
    && value.Some? && SignedOver(lib, cms, value.value)
    && (opts.caCerts == [] || ChainReaches(lib, cms, opts.caCerts))
    && (opts.ignoreTimestamp || lib.timestampOk(built) != Some(false))
    && (opts.leafHashOk.None? || opts.leafHashOk.value(cms))
  }

  ghost predicate GoodBlob(lib: Library, opts: Options, stream: bytes, blob: bytes) {
    && Opens(lib, blob)
    && var built := Wrap(blob).value;
       var cms := lib.parse(built).value;
       Good(lib, opts, stream, built, cms, SignedValue(cms))
  }

  ghost predicate GoodSignature(lib: Library, opts: Options, stream: bytes, s: Signature)
    requires IsTlv(s.content)
  {
    Good(lib, opts, stream, s.built, s.cms, Some(Content(s.content)))
  }

  lemma GoodFlags(lib: Library, opts: Options, r: SignatureResult, index: nat, stream: bytes, built: bytes,
      cms: ParsedCms, value: Option<bytes>)
    requires Reports(lib, opts, r, index, stream, built, cms, value)
    ensures FlagsGood(r) <==> Good(lib, opts, stream, built, cms, value)
  {
    hide ChainReaches, CommitsTo, SignedOver;
  }

  lemma BlobFlags(lib: Library, opts: Options, r: SignatureResult, index: nat, stream: bytes, blob: bytes)
    requires Opens(lib, blob) && ReportsBlob(lib, opts, r, index, stream, blob)
    ensures FlagsGood(r) <==> GoodBlob(lib, opts, stream, blob)
  {
    hide FlagsGood, Reports, Good, Rewrite;
    var built := Wrap(blob).value;
    var cms := lib.parse(built).value;
    GoodFlags(lib, opts, r, index, stream, built, cms, SignedValue(cms));
  }

  /** Under any options, all flags of a file written with a signature are good exactly when the
      content commits to the hash of the digest stream, the signers verify over the octets used
      at signing, whatever else the options ask for holds of what the signer built, and the
      same is true of every nested blob. */
  lemma AcceptsExactly(lib: Library, opts: Options, data: bytes, pe: PeInfo, s: Signature, nested: seq<bytes>)
    requires WellPlaced(data, pe) && Fits(pe, s.embedded) && Genuine(lib, s) && lib.nested(s.built) == Some(nested)
    ensures SignedImage(data, pe, s.embedded).Ok? && IsTlv(s.content)
    ensures var verdict, stream := Verified(lib, opts, SignedImage(data, pe, s.embedded).value), DigestStream(data, pe);
      verdict.Ok? && AllOk(verdict.value) <==>
        && GoodSignature(lib, opts, stream, s)
        && forall i :: 0 <= i < |nested| ==> GoodBlob(lib, opts, stream, nested[i])
  {
    hide SignedImage, DigestStream, Verified, Genuine, ParsePe, CertEntry, Opens, Reports, Good, FlagsGood;
    EndToEnd(lib, opts, data, pe, s, nested);
    var signed := SignedImage(data, pe, s.embedded).value;
    var stream, verdict := DigestStream(data, pe), Verified(lib, opts, signed);
    if verdict.Ok? {
      var v := verdict.value;
      AllOkSplits(v);
      GoodFlags(lib, opts, v[0], 0, stream, s.built, s.cms, Some(Content(s.content)));
      NestedFlags(lib, opts, stream, nested, v);
    }
  }

  lemma AllOkSplits(v: seq<SignatureResult>)
    requires |v| > 0
    ensures AllOk(v) <==> FlagsGood(v[0]) && forall k :: 1 <= k < |v| ==> FlagsGood(v[k])
  {
    hide FlagsGood;
    assert forall k :: 0 <= k < |v| ==> v[k] in v;
  }

  lemma NestedFlags(lib: Library, opts: Options, stream: bytes, nested: seq<bytes>, v: seq<SignatureResult>)
    requires |v| == 1 + |nested| && forall i :: 0 <= i < |nested| ==> Opens(lib, nested[i])
    requires forall i :: 0 <= i < |nested| ==> ReportsBlob(lib, opts, v[i + 1], i + 1, stream, nested[i])
    ensures (forall k :: 1 <= k < |v| ==> FlagsGood(v[k])) <==>
      forall i :: 0 <= i < |nested| ==> GoodBlob(lib, opts, stream, nested[i])
  {
    hide FlagsGood, Opens, ReportsBlob, GoodBlob;
    forall k | 1 <= k < |v| ensures FlagsGood(v[k]) <==> GoodBlob(lib, opts, stream, nested[k - 1]) {
      assert ReportsBlob(lib, opts, v[(k - 1) + 1], (k - 1) + 1, stream, nested[k - 1]);
      BlobFlags(lib, opts, v[k], k, stream, nested[k - 1]);
    }
    if forall k :: 1 <= k < |v| ==> FlagsGood(v[k]) {
      forall i | 0 <= i < |nested| ensures GoodBlob(lib, opts, stream, nested[i]) {
        assert FlagsGood(v[i + 1]);
      }
    }
  }

  /** Every nested blob is the embedded form of a genuine signature, with any padding. */
  predicate AllGenuine(lib: Library, more: seq<Signature>, nested: seq<bytes>) {
    && |nested| == |more|
    && forall i :: 0 <= i < |more| ==> Genuine(lib, more[i]) && more[i].embedded <= nested[i]
  }

  /** With nothing but genuine signatures: all flags are good exactly when every one of them, the
      primary and the nested, commits to this file and verifies over its own content. */
  lemma AcceptsSignatures(lib: Library, opts: Options, data: bytes, pe: PeInfo, s: Signature, more: seq<Signature>,
      nested: seq<bytes>)
    requires WellPlaced(data, pe) && Fits(pe, s.embedded) && Genuine(lib, s) && lib.nested(s.built) == Some(nested)
    requires AllGenuine(lib, more, nested)
    ensures SignedImage(data, pe, s.embedded).Ok? && IsTlv(s.content)
    ensures forall i :: 0 <= i < |more| ==> IsTlv(more[i].content)
    ensures var verdict, stream := Verified(lib, opts, SignedImage(data, pe, s.embedded).value), DigestStream(data, pe);
      verdict.Ok? && AllOk(verdict.value) <==>
        && GoodSignature(lib, opts, stream, s)
        && forall i :: 0 <= i < |more| ==> GoodSignature(lib, opts, stream, more[i])
  {
    hide SignedImage, DigestStream, Verified, Genuine, ParsePe, CertEntry, Opens, GoodSignature, GoodBlob, AllOk;
    AcceptsExactly(lib, opts, data, pe, s, nested);
    var stream := DigestStream(data, pe);
    forall i | 0 <= i < |more|
        ensures IsTlv(more[i].content)
        ensures GoodBlob(lib, opts, stream, nested[i]) <==> GoodSignature(lib, opts, stream, more[i]) {
      GenuineContent(lib, more[i]);
      GenuineBlob(lib, opts, stream, more[i], nested[i]);
    }
  }

  lemma GenuineBlob(lib: Library, opts: Options, stream: bytes, s: Signature, blob: bytes)
    requires Genuine(lib, s) && IsTlv(s.content) && s.embedded <= blob
    ensures GoodBlob(lib, opts, stream, blob) <==> GoodSignature(lib, opts, stream, s)
  {
    hide Genuine, Good, Opens;
    var trailer := blob[|s.embedded|..];
    assert blob == s.embedded + trailer;
    GenuineOpens(lib, s, trailer);
    GenuineContent(lib, s);
  }

  /** What the basic check asks of one signature: no authority, but no bad timestamp either. */
  predicate BasicallyGood(lib: Library, stream: bytes, s: Signature)
    requires IsTlv(s.content)
  {
    && CommitsTo(lib, s.content, stream) && SignedOver(lib, s.cms, Content(s.content))
    && lib.timestampOk(s.built) != Some(false)
  }

  /** The verdict of the basic check on a file with genuine signatures only. */
  lemma BasicCheckAccepts(lib: Library, data: bytes, pe: PeInfo, s: Signature, more: seq<Signature>,
      nested: seq<bytes>)
    requires WellPlaced(data, pe) && Fits(pe, s.embedded) && Genuine(lib, s) && lib.nested(s.built) == Some(nested)
    requires AllGenuine(lib, more, nested)
    ensures SignedImage(data, pe, s.embedded).Ok? && IsTlv(s.content)
    ensures forall i :: 0 <= i < |more| ==> IsTlv(more[i].content)
    ensures var signed, stream := SignedImage(data, pe, s.embedded).value, DigestStream(data, pe);
      PeVerifies(lib, signed) <==>
        BasicallyGood(lib, stream, s) && forall i :: 0 <= i < |more| ==> BasicallyGood(lib, stream, more[i])
  {
    hide SignedImage, DigestStream, Verified, Genuine, ParsePe, CertEntry, AllOk, CommitsTo, SignedOver;
    AcceptsSignatures(lib, DEFAULT_OPTIONS, data, pe, s, more, nested);
    var stream := DigestStream(data, pe);
    forall i | 0 <= i < |more|
        ensures IsTlv(more[i].content)
        ensures GoodSignature(lib, DEFAULT_OPTIONS, stream, more[i]) <==> BasicallyGood(lib, stream, more[i]) {
      GenuineContent(lib, more[i]);
    }
    GenuineContent(lib, s);
  }

  /** A file that cannot be parsed, or carries no signature, has no result. */
  lemma NothingToVerify(lib: Library, opts: Options, data: bytes)
    ensures ParsePe(data).Err? ==> Verified(lib, opts, data) == Err(ParsePe(data).error)
    ensures ParsePe(data).Ok? && ParsePe(data).value.sigpos == 0 ==>
      ExtractSignature(data, ParsePe(data).value) == Ok(None) && Verified(lib, opts, data) == Err(NoSignature)
  {
    hide ParsePe;
  }

  /** The verdict does not depend on what was done to the file before its last signing. */
  lemma VerdictIgnoresHistory(lib: Library, opts: Options, data: bytes, pe: PeInfo, ops: seq<Op>, sig: bytes)
    requires WellPlaced(data, pe) && AllFit(pe, ops + [Sign(sig)]) && Legal(pe.sigpos > 0, ops)
    ensures Run(data, ops + [Sign(sig)]).Ok? && SignedImage(data, pe, sig).Ok?
    ensures Verified(lib, opts, Run(data, ops + [Sign(sig)]).value) == Verified(lib, opts, SignedImage(data, pe,
        sig).value)
  {
    hide Run, ParsePe, SignedImage, DigestStream, PartsOf;
    var all := ops + [Sign(sig)];
    assert all[..|all| - 1] == ops && all[|all| - 1] == Sign(sig);
    assert Legal(pe.sigpos > 0, all);
    RunsKeepTheFile(data, pe, all);
  }

  /** Two files, whatever their headers, lengths and signatures, that both match the digest of
      one signature either have the same padded parts or exhibit a collision of its hash. */
  lemma TamperingNeedsACollision(lib: Library, d: bytes, pd: PeInfo, e: bytes, pe: PeInfo, cms: ParsedCms)
    requires WellPlaced(d, pd) && WellPlaced(e, pe)
    requires Aligned(PartsOf(d, pd)) != Aligned(PartsOf(e, pe))
    requires DigestMatches(lib, d, pd, cms) && DigestMatches(lib, e, pe, cms)
    ensures var alg := lib.decodeSpc(cms.content.value).value.0;
      && DigestStream(d, pd) != DigestStream(e, pe)
      && lib.hash(alg, DigestStream(d, pd)).Some?
      && lib.hash(alg, DigestStream(d, pd)) == lib.hash(alg, DigestStream(e, pe))
  {
    hide DigestStream, ParsePe, PartsOf;
    StreamsTellPartsApart(d, pd, e, pe);
  }
}
