/** The fix-up between the RFC 5652 form of a signature (OCTET STRING wrapper, version 3)
    and the native Authenticode form (no wrapper, version 1), done by splicing octets. */
module ContentRewrite {
  import opened Bytes
  import opened DerCodec
  import opened DerItems
  import opened Spine

  /** Where the path down to the content lies in the buffer. */
  datatype Spans = Spans(
    infoStart: nat, infoEnd: nat,
    content: Child, signedData: Child, version: Child, encap: Child, eContent: Child, first: Child)

  function LocateChild(b: bytes, start: nat, end: nat, tag: byte, missing: Error): Result<Child> {
    var v :- Children(b, start, end);
    FindChild(v, tag, missing)
  }

  function LocateFirst(b: bytes, start: nat, end: nat, missing: Error): Result<Child> {
    var v :- Children(b, start, end);
    if v == [] then Err(missing) else Ok(v[0])
  }

  function Locate(der: bytes): Result<Spans> {
    var info :- ReadHeader(der, 0);
    if info.tag != SEQUENCE then Err(NotASequence)
    else
      var content :- LocateChild(der, info.contentStart, info.contentEnd, CONTEXT_0, MissingContent);
      var signedData :- LocateChild(der, content.contentStart, content.contentEnd, SEQUENCE, MissingSignedData);
      var version :- LocateFirst(der, signedData.contentStart, signedData.contentEnd, MissingVersion);
      if version.tag != INTEGER then Err(MissingVersion)
      else
        var encap :- LocateChild(der, signedData.contentStart, signedData.contentEnd, SEQUENCE,
            MissingEncapContentInfo);
        var eContent :- LocateChild(der, encap.contentStart, encap.contentEnd, CONTEXT_0, MissingEContent);
        var first :- LocateFirst(der, eContent.contentStart, eContent.contentEnd, EmptyEContent);
        Ok(Spans(info.contentStart, info.contentEnd, content, signedData, version, encap, eContent, first))
  }

  predicate SpanIn(der: bytes, c: Child, start: nat) {
    start <= c.start && ReadHeader(der, c.start) == Ok(Header(c.tag, c.contentStart, c.contentEnd))
  }

  /** What a located path always satisfies: headers that read, in order. Whether a child
      ends inside its parent is not among it. */
  predicate PathIn(der: bytes, s: Spans) {
    && ReadHeader(der, 0) == Ok(Header(SEQUENCE, s.infoStart, s.infoEnd))
    && SpanIn(der, s.content, s.infoStart) && s.content.tag == CONTEXT_0
    && SpanIn(der, s.signedData, s.content.contentStart) && s.signedData.tag == SEQUENCE
    && SpanIn(der, s.version, s.signedData.contentStart) && s.version.tag == INTEGER
    && s.version.start == s.signedData.contentStart
    && SpanIn(der, s.encap, s.version.contentEnd) && s.encap.tag == SEQUENCE
    && SpanIn(der, s.eContent, s.encap.contentStart) && s.eContent.tag == CONTEXT_0
    && SpanIn(der, s.first, s.eContent.contentStart) && s.first.start == s.eContent.contentStart
  }

  predicate ChildFits(c: Child, start: nat, n: nat) {
    start <= c.start < c.contentStart <= c.contentEnd <= n
  }

  /** The offsets of a located path are ordered and lie in a buffer of `n` octets. */
  predicate PathFits(s: Spans, n: nat) {
    && s.infoStart <= s.infoEnd <= n
    && ChildFits(s.content, s.infoStart, n)
    && ChildFits(s.signedData, s.content.contentStart, n)
    && ChildFits(s.version, s.signedData.contentStart, n)
    && ChildFits(s.encap, s.version.contentEnd, n)
    && ChildFits(s.eContent, s.encap.contentStart, n)
    && ChildFits(s.first, s.eContent.contentStart, n)
  }

  /** The slices the splice takes after each path member are in range. */
  predicate PathNests(s: Spans) {
    && s.content.contentEnd <= s.infoEnd
    && s.signedData.contentEnd <= s.content.contentEnd
    && s.encap.contentEnd <= s.signedData.contentEnd
    && s.eContent.contentEnd <= s.encap.contentEnd
  }

  predicate InForm(der: bytes, s: Spans, wrap: bool)
    requires PathFits(s, |der|)
  {
    wrap == (s.first.tag == OCTET_STRING)
    && der[s.version.start..s.version.contentEnd] == TargetVersion(wrap)
  }

  function NewBody(der: bytes, s: Spans, wrap: bool): bytes
    requires PathFits(s, |der|)
  {
    var wrapped := s.first.tag == OCTET_STRING;
    if wrap && !wrapped then Emit(OCTET_STRING, der[s.first.start..s.first.contentEnd])
    else if !wrap && wrapped then der[s.first.contentStart..s.first.contentEnd]
    else der[s.eContent.contentStart..s.eContent.contentEnd]
  }

  /** One rebuilt container: `prefix`, then the octets around the child with `inner` in its place. */
  function NewLevel(tag: byte, prefix: bytes, der: bytes, start: nat, child: Child, end: nat, inner: bytes): bytes
    requires start <= child.start <= |der| && child.contentEnd <= end <= |der|
  {
    Emit(tag, prefix + der[start..child.start] + inner + der[child.contentEnd..end])
  }

  /** The whole path rebuilt, innermost container first. */
  function Rebuilt(der: bytes, s: Spans, wrap: bool): bytes
    requires PathFits(s, |der|) && PathNests(s)
  {
    var eContent := Emit(CONTEXT_0, NewBody(der, s, wrap));
    var encap := NewLevel(SEQUENCE, [], der, s.encap.contentStart, s.eContent, s.encap.contentEnd, eContent);
    var signedData := NewLevel(SEQUENCE, TargetVersion(wrap), der, s.version.contentEnd, s.encap,
        s.signedData.contentEnd, encap);
    var content := NewLevel(CONTEXT_0, [], der, s.content.contentStart, s.signedData, s.content.contentEnd, signedData);
    NewLevel(SEQUENCE, [], der, s.infoStart, s.content, s.infoEnd, content)
  }

  function Rewrite(der: bytes, wrap: bool): Result<bytes> {
    var s :- Locate(der);
    LocateFindsPath(der);
    if InForm(der, s, wrap) then Ok(der)
    else if !PathNests(s) then Err(SliceOutOfRange)
    else Ok(Rebuilt(der, s, wrap))
  }

  function Normalize(der: bytes): Result<bytes> {
    Rewrite(der, false)
  }

  function Wrap(der: bytes): Result<bytes> {
    Rewrite(der, true)
  }

  function CheckEnvelope(der: bytes): Result<()> {
    var normalized :- Normalize(der);
    if normalized == der then Ok(()) else Err(EnvelopeRejected)
  }

  lemma FoundChild(b: bytes, start: nat, end: nat, tag: byte, missing: Error)
    requires LocateChild(b, start, end, tag, missing).Ok?
    ensures var c := LocateChild(b, start, end, tag, missing).value;
      SpanIn(b, c, start) && c.tag == tag && c in Children(b, start, end).value
  {
    ChildrenAreTlvs(b, start, end);
  }

  lemma FoundFirst(b: bytes, start: nat, end: nat, missing: Error)
    requires LocateFirst(b, start, end, missing).Ok?
    ensures var c := LocateFirst(b, start, end, missing).value;
      start < end && SpanIn(b, c, start) && c.start == start && c == Children(b, start, end).value[0]
  {
    ChildrenAreTlvs(b, start, end);
  }

  /** Children follow one another: a later child starts where the first one ended, or after. */
  lemma LaterChildStartsAfter(b: bytes, start: nat, end: nat, c: Child)
    requires Children(b, start, end).Ok? && start < end
    requires c in Children(b, start, end).value && c != Children(b, start, end).value[0]
    ensures ReadHeader(b, start).value.contentEnd <= c.start
  {
    var mid := ReadHeader(b, start).value.contentEnd;
    assert c in Children(b, mid, end).value;
    ChildrenAreTlvs(b, mid, end);
  }

  lemma LocateFindsPath(der: bytes)
    requires Locate(der).Ok?
    ensures PathIn(der, Locate(der).value) && PathFits(Locate(der).value, |der|)
  {
    var s := Locate(der).value;
    FoundChild(der, s.infoStart, s.infoEnd, CONTEXT_0, MissingContent);
    FoundChild(der, s.content.contentStart, s.content.contentEnd, SEQUENCE, MissingSignedData);
    var start, end := s.signedData.contentStart, s.signedData.contentEnd;
    FoundFirst(der, start, end, MissingVersion);
    FoundChild(der, start, end, SEQUENCE, MissingEncapContentInfo);
    LaterChildStartsAfter(der, start, end, s.encap);
    FoundChild(der, s.encap.contentStart, s.encap.contentEnd, CONTEXT_0, MissingEContent);
    FoundFirst(der, s.eContent.contentStart, s.eContent.contentEnd, EmptyEContent);
  }

  // -------------------------------------------------------------------------- the splice

  method LocatePath(der: bytes) returns (r: Result<Spans>)
    ensures r == Locate(der)
  {
    var info :- ReadHeaderAt(der, 0);
    if info.tag != SEQUENCE {
      return Err(NotASequence);
    }
    var l0 :- ChildrenOf(der, info.contentStart, info.contentEnd);
    var content :- FindChild(l0, CONTEXT_0, MissingContent);
    var l1 :- ChildrenOf(der, content.contentStart, content.contentEnd);
    var signedData :- FindChild(l1, SEQUENCE, MissingSignedData);
    var l2 :- ChildrenOf(der, signedData.contentStart, signedData.contentEnd);
    if l2 == [] || l2[0].tag != INTEGER {
      return Err(MissingVersion);
    }
    var encap :- FindChild(l2, SEQUENCE, MissingEncapContentInfo);
    var l3 :- ChildrenOf(der, encap.contentStart, encap.contentEnd);
    var eContent :- FindChild(l3, CONTEXT_0, MissingEContent);
    var l4 :- ChildrenOf(der, eContent.contentStart, eContent.contentEnd);
    if l4 == [] {
      return Err(EmptyEContent);
    }
    return Ok(Spans(info.contentStart, info.contentEnd, content, signedData, l2[0], encap, eContent, l4[0]));
  }

  /** One level rebuilt by extending a buffer: what precedes the child, the child, what
      follows. The level outgrows the one it replaces no more than `inner` outgrows the child,
      but for a few octets. */
  method RebuildLevel(tag: byte, prefix: bytes, der: bytes, start: nat, child: Child, end: nat, inner: bytes,
                      ghost slack: nat)
    returns (out: bytes)
    requires |der| < SLICE_LIMIT && |prefix| <= 3 && slack < 100
    requires start <= child.start <= child.contentEnd <= end <= |der|
    requires |inner| <= |der| + slack + (child.contentEnd - child.start)
    ensures out == NewLevel(tag, prefix, der, start, child, end, inner)
    ensures |out| <= |der| + slack + 13 + (end - start)
  {
    var content := prefix + der[start..child.start];
    content := content + inner;
    content := content + der[child.contentEnd..end];
    out := EmitTlv(tag, content);
    EmitSize(tag, content);
  }

  /** Rebuilds the containers around a new body, bottom-up. */
  method RebuildPath(der: bytes, s: Spans, wrap: bool, body: bytes) returns (out: bytes)
    requires |der| < SLICE_LIMIT && PathFits(s, |der|) && PathNests(s)
    requires body == NewBody(der, s, wrap) && |body| <= |der| + 10
    ensures out == Rebuilt(der, s, wrap)
  {
    hide LenOctets;
    var level := EmitTlv(CONTEXT_0, body);
    EmitSize(CONTEXT_0, body);
    level := RebuildLevel(SEQUENCE, [], der, s.encap.contentStart, s.eContent, s.encap.contentEnd, level, 20);
    level := RebuildLevel(SEQUENCE, TargetVersion(wrap), der, s.version.contentEnd, s.encap,
        s.signedData.contentEnd, level, 33);
    level := RebuildLevel(CONTEXT_0, [], der, s.content.contentStart, s.signedData, s.content.contentEnd, level, 46);
    out := RebuildLevel(SEQUENCE, [], der, s.infoStart, s.content, s.infoEnd, level, 59);
  }

  method RewriteAuthenticodeContent(der: bytes, wrap: bool) returns (r: Result<bytes>)
    requires |der| < SLICE_LIMIT
    ensures r == Rewrite(der, wrap)
  {
    var s :- LocatePath(der);
    LocateFindsPath(der);
    var target := if wrap then VERSION_3 else VERSION_1;
    var versionMatches := der[s.version.start..s.version.contentEnd] == target;
    var wrapped := s.first.tag == OCTET_STRING;
    if wrap == wrapped && versionMatches {
      return Ok(der);
    }
    if !PathNests(s) {
      return Err(SliceOutOfRange);
    }
    var body: bytes;
    if wrap && !wrapped {
      EmitSize(OCTET_STRING, der[s.first.start..s.first.contentEnd]);
      body := EmitTlv(OCTET_STRING, der[s.first.start..s.first.contentEnd]);
    } else if !wrap && wrapped {
      body := der[s.first.contentStart..s.first.contentEnd];
    } else {
      body := der[s.eContent.contentStart..s.eContent.contentEnd];
    }
    var out := RebuildPath(der, s, wrap, body);
    return Ok(out);
  }

  lemma EmitSize(tag: byte, content: bytes)
    requires |content| < USIZE
    ensures |content| + 2 <= |Emit(tag, content)| <= |content| + 10
  {
    PowValues();
    BeOctetsCount(|content|, 8);
  }

  // -------------------------------------------------------- the splice refines a tree edit

  /** The octets around child `c` are those of a frame. */
  predicate LevelIs(b: bytes, start: nat, c: Child, end: nat, pre: bytes, post: bytes) {
    && start <= c.start < c.contentStart <= c.contentEnd <= end <= |b|
    && pre == b[start..c.start]
    && post == b[c.contentEnd..end]
  }

  /** One level: the reader's child and the strict tree's child are the same octets. */
  lemma EnterAt(b: bytes, start: nat, end: nat, tag: byte, missing: Error) returns (c: Child)
    requires start <= end <= |b| && Enter(b[start..end], tag).Some?
    ensures LocateChild(b, start, end, tag, missing) == Ok(c)
    ensures var (f, inner) := Enter(b[start..end], tag).value;
      LevelIs(b, start, c, end, Flat(f.pre), Flat(f.post)) && inner == b[c.contentStart..c.contentEnd]
  {
    var items := Split(b[start..end]).value;
    ChildrenAreItems(b, start, end);
    var v := Children(b, start, end).value;
    var k := IndexOf(Tags(items), tag);
    c := v[k];
    assert ChildIs(b, start, end, items, k, c);
  }

  lemma FirstAt(b: bytes, start: nat, end: nat, missing: Error) returns (c: Child)
    requires start <= end <= |b| && Split(b[start..end]).Some? && Split(b[start..end]).value != []
    ensures LocateFirst(b, start, end, missing) == Ok(c)
    ensures var items := Split(b[start..end]).value;
      && c.start == start && c.tag == items[0][0] && b[start..c.contentEnd] == items[0]
      && LevelIs(b, start, c, end, [], Flat(items[1..])) && Content(items[0]) == b[c.contentStart..c.contentEnd]
  {
    var items := Split(b[start..end]).value;
    ChildrenAreItems(b, start, end);
    c := Children(b, start, end).value[0];
    assert ChildIs(b, start, end, items, 0, c);
    assert items[..0] == [];
  }

  /** The located path and the tree of a well-nested input are the same octets. */
  ghost predicate PathIsTree(der: bytes, s: Spans, t: Tree) {
    && ValidTree(t) && HasFirst(t.body)
    && s.infoEnd <= |der|
    && LevelIs(der, s.infoStart, s.content, s.infoEnd, Flat(t.contentInfo.pre), Flat(t.contentInfo.post))
    && LevelIs(der, s.content.contentStart, s.signedData, s.content.contentEnd, Flat(t.content.pre),
        Flat(t.content.post))
    && s.version.start < s.version.contentEnd <= |der|
    && t.signedData.pre[0] == der[s.version.start..s.version.contentEnd]
    && LevelIs(der, s.version.contentEnd, s.encap, s.signedData.contentEnd, Flat(t.signedData.pre[1..]),
        Flat(t.signedData.post))
    && LevelIs(der, s.encap.contentStart, s.eContent, s.encap.contentEnd, Flat(t.encap.pre), Flat(t.encap.post))
    && t.body == der[s.eContent.contentStart..s.eContent.contentEnd]
    && s.first.start < s.first.contentStart <= s.first.contentEnd <= |der|
    && First(t.body) == der[s.first.start..s.first.contentEnd]
    && Content(First(t.body)) == der[s.first.contentStart..s.first.contentEnd]
    && Wrapped(t.body) == (s.first.tag == OCTET_STRING)
  }

  lemma LocateIsTree(der: bytes) returns (s: Spans)
    requires WellNested(der)
    ensures Locate(der) == Ok(s) && PathFits(s, |der|) && PathNests(s)
    ensures PathIsTree(der, s, Parse(der).value)
  {
    ParseIsValid(der);
    var t := Parse(der).value;
    var h := ReadHeader(der, 0).value;
    var l1 := EnterAt(der, h.contentStart, h.contentEnd, CONTEXT_0, MissingContent);
    var l2 := EnterAt(der, l1.contentStart, l1.contentEnd, SEQUENCE, MissingSignedData);
    var l3 := EnterAt(der, l2.contentStart, l2.contentEnd, SEQUENCE, MissingEncapContentInfo);
    var version := FirstAt(der, l2.contentStart, l2.contentEnd, MissingVersion);
    VersionSplits(der, l2.contentStart, version.contentEnd, l3.start, t.signedData.pre);
    var l4 := EnterAt(der, l3.contentStart, l3.contentEnd, CONTEXT_0, MissingEContent);
    var first := FirstAt(der, l4.contentStart, l4.contentEnd, EmptyEContent);
    s := Spans(h.contentStart, h.contentEnd, l1, l2, version, l3, l4, first);
    assert Locate(der) == Ok(s);
  }

  lemma VersionSplits(der: bytes, start: nat, versionEnd: nat, end: nat, pre: seq<bytes>)
    requires start <= versionEnd && start <= end <= |der| && pre != [] && versionEnd <= |der|
    requires Flat(pre) == der[start..end] && pre[0] == der[start..versionEnd]
    ensures versionEnd <= end && Flat(pre[1..]) == der[versionEnd..end]
  {
    assert der[start..end] == der[start..versionEnd] + Flat(pre[1..]);
    assert |der[start..end]| == end - start;
    assert der[start..end][versionEnd - start..] == der[versionEnd..end];
  }

  /** One rebuilt container is the printed frame, when their surroundings are the same octets. */
  lemma LevelPrints(tag: byte, prefix: bytes, der: bytes, start: nat, child: Child, end: nat, f: Frame, inner: bytes)
    requires start <= child.start <= child.contentEnd <= end <= |der|
    requires prefix + der[start..child.start] == Flat(f.pre) && der[child.contentEnd..end] == Flat(f.post)
    ensures NewLevel(tag, prefix, der, start, child, end, inner) == Emit(tag, Around(f, inner))
  {
    assert prefix + der[start..child.start] + inner + der[child.contentEnd..end] == Around(f, inner);
  }

  lemma RebuiltPrints(der: bytes, s: Spans, t: Tree, wrap: bool)
    requires PathFits(s, |der|) && PathNests(s) && PathIsTree(der, s, t)
    ensures Rebuilt(der, s, wrap) == Print(Edit(t, wrap))
  {
    hide LenOctets;
    var e := Edit(t, wrap);
    assert NewBody(der, s, wrap) == e.body;
    assert forall x: bytes :: [] + x == x;
    LevelPrints(SEQUENCE, [], der, s.encap.contentStart, s.eContent, s.encap.contentEnd, e.encap, Emit(CONTEXT_0,
        e.body));
    assert e.signedData.pre[1..] == t.signedData.pre[1..];
    assert Flat(e.signedData.pre) == TargetVersion(wrap) + Flat(t.signedData.pre[1..]);
    LevelPrints(SEQUENCE, TargetVersion(wrap), der, s.version.contentEnd, s.encap, s.signedData.contentEnd,
                e.signedData, Emit(SEQUENCE, EncapContent(e)));
    LevelPrints(CONTEXT_0, [], der, s.content.contentStart, s.signedData, s.content.contentEnd,
                e.content, Emit(SEQUENCE, SignedDataContent(e)));
    LevelPrints(SEQUENCE, [], der, s.infoStart, s.content, s.infoEnd,
                e.contentInfo, Emit(CONTEXT_0, Around(e.content, Emit(SEQUENCE, SignedDataContent(e)))));
  }

  /** The tree is already in the wanted form exactly when the located path is. */
  lemma InFormIsFixpoint(der: bytes, s: Spans, t: Tree, wrap: bool)
    requires PathFits(s, |der|) && PathIsTree(der, s, t)
    ensures InForm(der, s, wrap) <==> Edit(t, wrap) == t
  {
    var e := Edit(t, wrap);
    if InForm(der, s, wrap) {
      assert e.signedData.pre == t.signedData.pre;
    } else if wrap == Wrapped(t.body) {
      assert e.signedData.pre[0] != t.signedData.pre[0];
    } else {
      EditChangesBody(t.body, wrap);
    }
  }

  /** On well-nested input the splice is: print the edited tree. */
  lemma RewriteIsTreeEdit(der: bytes, wrap: bool)
    requires WellNested(der)
    ensures ValidTree(Parse(der).value)
    ensures var t := Parse(der).value;
      Rewrite(der, wrap) == Ok(if Edit(t, wrap) == t then der else Print(Edit(t, wrap)))
  {
    var s := LocateIsTree(der);
    InFormIsFixpoint(der, s, Parse(der).value, wrap);
    RebuiltPrints(der, s, Parse(der).value, wrap);
  }

  lemma EditChangesBody(body: bytes, wrap: bool)
    requires HasFirst(body) && wrap != Wrapped(body)
    ensures EditBody(body, wrap) != body
  {
    var first := First(body);
    assert Flat(Split(body).value) == first + Flat(Split(body).value[1..]);
    if !wrap {
      assert |Content(first)| < |first| <= |body|;
    } else {
      assert Emit(OCTET_STRING, first)[0] == OCTET_STRING;
    }
  }

  /** Parsing what the splice wrote gives the input's tree with only the version and the
      wrapper edited: every sibling at every level is there, in order, octet for octet. */
  lemma RewriteRefinesTreeEdit(der: bytes, wrap: bool)
    requires WellNested(der) && Rewrite(der, wrap).Ok? && |Rewrite(der, wrap).value| < U32
    ensures ValidTree(Parse(der).value)
    ensures Parse(Rewrite(der, wrap).value) == Some(Edit(Parse(der).value, wrap))
  {
    RewriteIsTreeEdit(der, wrap);
    var e := Edit(Parse(der).value, wrap);
    EditIsValid(Parse(der).value, wrap);
    if e != Parse(der).value {
      ParseInvertsPrint(e, []);
      assert Print(e) + [] == Print(e);
    }
  }
}
