/** What the fix-up promises: which envelopes pass the check, that the two directions undo
    each other, and that the content proper survives. */
module Envelope {
  import opened Bytes
  import opened DerCodec
  import opened Spine
  import opened ContentRewrite

  // -------------------------------------------------------------- size of rebuilt containers

  /** A printed header is never longer than the one that was read; with no more content
      than before it is equally long only for the same content length in minimal form. */
  lemma HeaderNeverGrows(b: bytes, pos: nat, n: nat)
    requires ReadHeader(b, pos).Ok?
    requires n <= ReadHeader(b, pos).value.contentEnd - ReadHeader(b, pos).value.contentStart
    ensures var h := ReadHeader(b, pos).value;
      && 1 + |LenOctets(n)| + n <= h.contentEnd - pos
      && (1 + |LenOctets(n)| + n == h.contentEnd - pos ==>
            n == h.contentEnd - h.contentStart && b[pos + 1..h.contentStart] == LenOctets(n))
  {
    hide ReadHeader, LenOctets;
    var h := ReadHeader(b, pos).value;
    EncodedLengthIsMinimal(b, pos);
    LenOctetsMonotone(n, h.contentEnd - h.contentStart);
  }

  predicate Minimal(der: bytes, c: Child)
    requires c.start < c.contentStart <= c.contentEnd && c.contentStart <= |der|
  {
    der[c.start + 1..c.contentStart] == LenOctets(c.contentEnd - c.contentStart)
  }

  predicate CanonicalPath(der: bytes, s: Spans)
    requires PathFits(s, |der|) && s.infoStart >= 1
  {
    && s.infoEnd == |der| && der[1..s.infoStart] == LenOctets(s.infoEnd - s.infoStart)
    && Minimal(der, s.content) && Minimal(der, s.signedData) && Minimal(der, s.encap) && Minimal(der, s.eContent)
  }

  /** The five container headers of the path are minimal and nothing follows the outermost. */
  predicate Canonical(der: bytes) {
    Locate(der).Ok? && (LocateFindsPath(der); CanonicalPath(der, Locate(der).value))
  }

  /** A container printed around a child that did not grow: it did not grow either, and kept
      its size only if the child did and the container's header was minimal. */
  lemma LevelSize(der: bytes, at: Child, tag: byte, prefix: bytes, start: nat, child: Child, inner: bytes)
    requires SpanIn(der, at, 0) && at.contentStart <= start <= child.start < child.contentEnd <= at.contentEnd
    requires |prefix| == start - at.contentStart && |inner| <= child.contentEnd - child.start
    ensures var size := |NewLevel(tag, prefix, der, start, child, at.contentEnd, inner)|;
      && size <= at.contentEnd - at.start
      && (size == at.contentEnd - at.start ==> |inner| == child.contentEnd - child.start && Minimal(der, at))
  {
    var content := prefix + der[start..child.start] + inner + der[child.contentEnd..at.contentEnd];
    HeaderNeverGrows(der, at.start, |content|);
  }

  /** The outermost container, as a child of the buffer. */
  function Outer(s: Spans): Child {
    Child(SEQUENCE, 0, s.infoStart, s.infoEnd)
  }

  /** If the version keeps its three octets and the body does not grow, nothing grows; and
      the total size is kept only by a canonical input whose body kept its size. */
  lemma RebuiltSize(der: bytes, s: Spans, wrap: bool)
    requires PathIn(der, s) && PathFits(s, |der|) && PathNests(s) && s.infoStart >= 1
    requires s.version.contentEnd - s.version.start == 3
    requires |NewBody(der, s, wrap)| <= s.eContent.contentEnd - s.eContent.contentStart
    ensures |Rebuilt(der, s, wrap)| <= s.infoEnd
    ensures |Rebuilt(der, s, wrap)| == |der| ==>
      && CanonicalPath(der, s)
      && |NewBody(der, s, wrap)| == s.eContent.contentEnd - s.eContent.contentStart
  {
    hide LenOctets, ReadHeader, NewLevel;
    var body := NewBody(der, s, wrap);
    EmitLength(CONTEXT_0, body);
    HeaderNeverGrows(der, s.eContent.start, |body|);
    var eContent := Emit(CONTEXT_0, body);
    LevelSize(der, s.encap, SEQUENCE, [], s.encap.contentStart, s.eContent, eContent);
    var encap := NewLevel(SEQUENCE, [], der, s.encap.contentStart, s.eContent, s.encap.contentEnd, eContent);
    LevelSize(der, s.signedData, SEQUENCE, TargetVersion(wrap), s.version.contentEnd, s.encap, encap);
    var signedData := NewLevel(SEQUENCE, TargetVersion(wrap), der, s.version.contentEnd, s.encap,
        s.signedData.contentEnd, encap);
    LevelSize(der, s.content, CONTEXT_0, [], s.content.contentStart, s.signedData, signedData);
    var content := NewLevel(CONTEXT_0, [], der, s.content.contentStart, s.signedData, s.content.contentEnd, signedData);
    LevelSize(der, Outer(s), SEQUENCE, [], s.infoStart, s.content, content);
  }

  lemma EmitLength(tag: byte, content: bytes)
    ensures |Emit(tag, content)| == 1 + |LenOctets(|content|)| + |content|
  {
  }

  // --------------------------------------------------------------- the envelope check is exact

  /** A printed container that still reads: its content begins where the printer put it. */
  lemma PrintedHeader(der: bytes, at: nat, tag: byte, content: bytes)
    requires |content| < USIZE && ReadHeader(der, at).Ok?
    requires at + |Emit(tag, content)| <= |der| && der[at..at + |Emit(tag, content)|] == Emit(tag, content)
    ensures var h := ReadHeader(der, at).value;
      h.contentEnd == h.contentStart + |content| && der[h.contentStart..h.contentEnd] == content
  {
    var n := |Emit(tag, content)|;
    assert der == der[..at] + Emit(tag, content) + der[at + n..];
    if |content| >= U32 {
      LongLengthsAreRejected(der[..at], tag, content, der[at + n..]);
    }
    ReadInvertsEmit(der[..at], tag, content, der[at + n..]);
    var start := at + 1 + |LenOctets(|content|)|;
    assert der[start..start + |content|] == Emit(tag, content)[1 + |LenOctets(|content|)|..];
  }

  /** If a rebuilt container stands where the old one stood, so does what it was rebuilt around. */
  lemma StepDown(der: bytes, at: Child, tag: byte, prefix: bytes, start: nat, child: Child, inner: bytes)
    requires |der| < SLICE_LIMIT && |inner| <= |der| && |prefix| <= 3
    requires SpanIn(der, at, 0) && start == at.contentStart + |prefix|
    requires start <= child.start < child.contentEnd <= at.contentEnd
    requires var level := NewLevel(tag, prefix, der, start, child, at.contentEnd, inner);
      at.start + |level| <= |der| && der[at.start..at.start + |level|] == level
    ensures child.start + |inner| <= |der| && der[child.start..child.start + |inner|] == inner
  {
    hide ReadHeader, LenOctets;
    var before, after := prefix + der[start..child.start], der[child.contentEnd..at.contentEnd];
    var content := before + inner + after;
    PrintedHeader(der, at.start, tag, content);
    Middle(before, inner, after);
    SliceOfSlice(der, at.contentStart, at.contentStart + |content|, |before|, |before| + |inner|);
  }

  lemma NewLevelLonger(tag: byte, prefix: bytes, der: bytes, start: nat, child: Child, end: nat, inner: bytes)
    requires start <= child.start <= |der| && child.contentEnd <= end <= |der|
    ensures |inner| <= |NewLevel(tag, prefix, der, start, child, end, inner)|
  {
  }

  /** A rewrite that gives back its input left the version and the body as they were. */
  lemma SameOctets(der: bytes, s: Spans, wrap: bool)
    requires |der| < SLICE_LIMIT && PathIn(der, s) && PathFits(s, |der|) && PathNests(s)
    requires Rebuilt(der, s, wrap) == der
    ensures der[s.version.start..s.version.contentEnd] == TargetVersion(wrap)
    ensures der[s.eContent.contentStart..s.eContent.contentEnd] == NewBody(der, s, wrap)
  {
    hide LenOctets, ReadHeader, NewLevel, NewBody, Emit;
    var body := NewBody(der, s, wrap);
    var eContent := Emit(CONTEXT_0, body);
    var encap := NewLevel(SEQUENCE, [], der, s.encap.contentStart, s.eContent, s.encap.contentEnd, eContent);
    var signedData := NewLevel(SEQUENCE, TargetVersion(wrap), der, s.version.contentEnd, s.encap,
        s.signedData.contentEnd, encap);
    var content := NewLevel(CONTEXT_0, [], der, s.content.contentStart, s.signedData, s.content.contentEnd, signedData);
    NewLevelLonger(SEQUENCE, [], der, s.infoStart, s.content, s.infoEnd, content);
    NewLevelLonger(CONTEXT_0, [], der, s.content.contentStart, s.signedData, s.content.contentEnd, signedData);
    NewLevelLonger(SEQUENCE, TargetVersion(wrap), der, s.version.contentEnd, s.encap, s.signedData.contentEnd, encap);
    NewLevelLonger(SEQUENCE, [], der, s.encap.contentStart, s.eContent, s.encap.contentEnd, eContent);
    EmitLength(CONTEXT_0, body);
    assert der[0..|der|] == der;
    StepDown(der, Outer(s), SEQUENCE, [], s.infoStart, s.content, content);
    StepDown(der, s.content, CONTEXT_0, [], s.content.contentStart, s.signedData, signedData);
    VersionInPlace(der, s, wrap, encap);
    assert |der[s.version.start..s.version.contentEnd]| == 3;
    StepDown(der, s.signedData, SEQUENCE, TargetVersion(wrap), s.version.contentEnd, s.encap, encap);
    StepDown(der, s.encap, SEQUENCE, [], s.encap.contentStart, s.eContent, eContent);
    PrintedHeader(der, s.eContent.start, CONTEXT_0, body);
  }

  lemma VersionReads(der: bytes, v: nat)
    requires v + 3 <= |der| && (der[v..v + 3] == VERSION_1 || der[v..v + 3] == VERSION_3)
    ensures ReadHeader(der, v) == Ok(Header(INTEGER, v + 2, v + 3))
  {
    var t := der[v..v + 3];
    assert der[v] == t[0] && der[v + 1] == t[1];
  }

  lemma VersionInPlace(der: bytes, s: Spans, wrap: bool, encap: bytes)
    requires |der| < SLICE_LIMIT && PathIn(der, s) && PathFits(s, |der|) && PathNests(s)
    requires var level := NewLevel(SEQUENCE, TargetVersion(wrap), der, s.version.contentEnd, s.encap,
        s.signedData.contentEnd, encap);
      s.signedData.start + |level| <= |der| && der[s.signedData.start..s.signedData.start + |level|] == level
    ensures der[s.version.start..s.version.contentEnd] == TargetVersion(wrap)
  {
    hide ReadHeader, LenOctets, Emit;
    var v := s.version.start;
    var content := TargetVersion(wrap) + der[s.version.contentEnd..s.encap.start] + encap +
        der[s.encap.contentEnd..s.signedData.contentEnd];
    EmitLength(SEQUENCE, content);
    PrintedHeader(der, s.signedData.start, SEQUENCE, content);
    assert content[0..3] == TargetVersion(wrap);
    SliceOfSlice(der, v, v + |content|, 0, 3);
    VersionReads(der, v);
  }

  /** A container with a minimal header, printed around what it already holds, is itself. */
  lemma LevelInPlace(der: bytes, at: Child, prefix: bytes, start: nat, child: Child, inner: bytes)
    requires SpanIn(der, at, 0) && at.contentStart <= start <= child.start < child.contentEnd <= at.contentEnd
    requires Minimal(der, at) && prefix == der[at.contentStart..start] && inner == der[child.start..child.contentEnd]
    ensures NewLevel(at.tag, prefix, der, start, child, at.contentEnd, inner) == der[at.start..at.contentEnd]
  {
    hide LenOctets;
    var content := prefix + der[start..child.start] + inner + der[child.contentEnd..at.contentEnd];
    assert content == der[at.contentStart..at.contentEnd];
    assert der[at.start..at.contentEnd] == [der[at.start]] + der[at.start + 1..at.contentStart] + content;
  }

  lemma EmitInPlace(der: bytes, at: Child, content: bytes)
    requires SpanIn(der, at, 0) && Minimal(der, at) && content == der[at.contentStart..at.contentEnd]
    ensures Emit(at.tag, content) == der[at.start..at.contentEnd]
  {
    hide LenOctets;
    assert der[at.start..at.contentEnd] == [der[at.start]] + der[at.start + 1..at.contentStart] + content;
  }

  lemma CanonicalInPlace(der: bytes, s: Spans, wrap: bool)
    requires PathIn(der, s) && PathFits(s, |der|) && PathNests(s) && s.infoStart >= 1 && CanonicalPath(der, s)
    requires der[s.version.start..s.version.contentEnd] == TargetVersion(wrap)
    requires der[s.eContent.contentStart..s.eContent.contentEnd] == NewBody(der, s, wrap)
    ensures Rebuilt(der, s, wrap) == der
  {
    hide LenOctets, ReadHeader, NewLevel, NewBody, TargetVersion;
    assert Minimal(der, Outer(s));
    hide Minimal;
    var body := NewBody(der, s, wrap);
    EmitInPlace(der, s.eContent, body);
    LevelInPlace(der, s.encap, [], s.encap.contentStart, s.eContent, Emit(CONTEXT_0, body));
    LevelInPlace(der, s.signedData, TargetVersion(wrap), s.version.contentEnd, s.encap,
        der[s.encap.start..s.encap.contentEnd]);
    LevelInPlace(der, s.content, [], s.content.contentStart, s.signedData,
        der[s.signedData.start..s.signedData.contentEnd]);
    LevelInPlace(der, Outer(s), [], s.infoStart, s.content, der[s.content.start..s.content.contentEnd]);
    assert der[0..|der|] == der;
  }

  /** Rebuilding the path gives back the input exactly when the input is canonical, has the
      target version, and its body is the new body. */
  lemma RebuildIsIdentity(der: bytes, s: Spans, wrap: bool)
    requires |der| < SLICE_LIMIT && PathIn(der, s) && PathFits(s, |der|) && PathNests(s) && s.infoStart >= 1
    ensures Rebuilt(der, s, wrap) == der <==>
      && CanonicalPath(der, s)
      && der[s.version.start..s.version.contentEnd] == TargetVersion(wrap)
      && der[s.eContent.contentStart..s.eContent.contentEnd] == NewBody(der, s, wrap)
  {
    hide LenOctets, ReadHeader, NewLevel, NewBody, Rebuilt, CanonicalPath;
    if Rebuilt(der, s, wrap) == der {
      SameOctets(der, s, wrap);
      assert |der[s.version.start..s.version.contentEnd]| == 3;
      assert |NewBody(der, s, wrap)| == s.eContent.contentEnd - s.eContent.contentStart;
      RebuiltSize(der, s, wrap);
    } else if CanonicalPath(der, s)
        && der[s.version.start..s.version.contentEnd] == TargetVersion(wrap)
        && der[s.eContent.contentStart..s.eContent.contentEnd] == NewBody(der, s, wrap) {
      CanonicalInPlace(der, s, wrap);
    }
  }

  /** An OCTET STRING at the start of eContent whose content is, octet for octet, the content
      of eContent itself, in a canonical envelope. It reaches past the end of eContent. */
  predicate SelfSimilarWrapper(der: bytes, s: Spans)
    requires PathFits(s, |der|) && s.infoStart >= 1
  {
    && PathNests(s) && CanonicalPath(der, s)
    && der[s.first.contentStart..s.first.contentEnd] == der[s.eContent.contentStart..s.eContent.contentEnd]
  }

  /** For every input: the check passes exactly when the path is found, the version TLV is
      02 01 01, and eContent does not begin with an OCTET STRING, or begins with one that
      dropping its header would leave in place. */
  lemma EnvelopeCheckIsExact(der: bytes)
    requires |der| < SLICE_LIMIT
    ensures Locate(der).Ok? ==> PathFits(Locate(der).value, |der|) && Locate(der).value.infoStart >= 1
    ensures CheckEnvelope(der).Ok? <==>
      && Locate(der).Ok?
      && var s := Locate(der).value;
         && der[s.version.start..s.version.contentEnd] == VERSION_1
         && (s.first.tag != OCTET_STRING || SelfSimilarWrapper(der, s))
  {
    hide ReadHeader, LenOctets, Locate, Rebuilt, CanonicalPath;
    if Locate(der).Ok? {
      var s := Locate(der).value;
      LocateFindsPath(der);
      if PathNests(s) {
        RebuildIsIdentity(der, s, false);
      }
    }
  }

  /** When eContent's first child ends inside eContent, the check passes exactly the native
      version-1 envelopes. */
  lemma NestedEnvelopeCheck(der: bytes)
    requires |der| < SLICE_LIMIT
    requires Locate(der).Ok? ==> Locate(der).value.first.contentEnd <= Locate(der).value.eContent.contentEnd
    ensures Locate(der).Ok? ==> PathFits(Locate(der).value, |der|)
    ensures CheckEnvelope(der).Ok? <==>
      && Locate(der).Ok?
      && var s := Locate(der).value;
         der[s.version.start..s.version.contentEnd] == VERSION_1 && s.first.tag != OCTET_STRING
  {
    hide ReadHeader, LenOctets, Locate, Rebuilt, CheckEnvelope, CanonicalPath;
    EnvelopeCheckIsExact(der);
    if Locate(der).Ok? {
      var s := Locate(der).value;
      LocateFindsPath(der);
      assert |der[s.first.contentStart..s.first.contentEnd]| < s.eContent.contentEnd - s.eContent.contentStart;
    }
  }
}
