/** Wrap and normalize undo each other, exactly on canonical input. */
module RoundTrip {
  import opened Bytes
  import opened DerCodec
  import opened DerItems
  import opened Spine
  import opened ContentRewrite
  import opened Envelope

  predicate SingleTlv(s: bytes) {
    Split(s).Some? && |Split(s).value| == 1
  }

  /** Native Authenticode: version 1, content directly in eContent. */
  predicate Native(t: Tree) {
    ValidTree(t) && HasFirst(t.body) && !Wrapped(t.body) && t.signedData.pre[0] == VERSION_1
  }

  /** RFC 5652: version 3, content in an OCTET STRING whose payload is a list of TLVs. */
  predicate Generic(t: Tree) {
    && ValidTree(t) && HasFirst(t.body) && Wrapped(t.body) && t.signedData.pre[0] == VERSION_3
    && HasFirst(Content(First(t.body)))
  }

  lemma SingleIsFirst(s: bytes)
    requires HasFirst(s)
    ensures SingleTlv(s) <==> First(s) == s
  {
    var items := Split(s).value;
    assert Flat(items) == items[0] + Flat(items[1..]);
    if |items| == 1 {
      assert items[1..] == [];
    } else {
      var rest := items[1..];
      assert Flat(rest) == rest[0] + Flat(rest[1..]);
      assert |rest[0]| > 0;
    }
  }

  lemma TlvIsItsFirst(raw: bytes)
    requires IsTlv(raw)
    ensures HasFirst(raw) && First(raw) == raw && SingleTlv(raw)
  {
    SplitFlat([raw]);
    assert Flat([raw]) == raw + Flat([raw][1..]) == raw;
  }

  // ------------------------------------------------------------------------ canonical input

  /** An input already in form is what its tree prints exactly when it is canonical. */
  lemma CanonicalReprints(der: bytes, wrap: bool)
    requires WellNested(der) && ValidTree(Parse(der).value) && Edit(Parse(der).value, wrap) == Parse(der).value
    ensures Print(Parse(der).value) == der <==> Canonical(der)
  {
    hide ReadHeader, LenOctets, Rebuilt, Locate;
    var t := Parse(der).value;
    var s := LocateIsTree(der);
    LocateFindsPath(der);
    RebuiltPrints(der, s, t, wrap);
    InFormIsFixpoint(der, s, t, wrap);
    assert s.infoStart >= 1;
    if Print(t) == der {
      assert |der[s.version.start..s.version.contentEnd]| == 3;
      BodyUnchanged(der, s, wrap);
      RebuiltSize(der, s, wrap);
    } else if CanonicalPath(der, s) {
      BodyUnchanged(der, s, wrap);
      CanonicalInPlace(der, s, wrap);
    }
  }

  lemma BodyUnchanged(der: bytes, s: Spans, wrap: bool)
    requires PathFits(s, |der|) && InForm(der, s, wrap)
    ensures NewBody(der, s, wrap) == der[s.eContent.contentStart..s.eContent.contentEnd]
  {
  }

  // ---------------------------------------------------------------------- both directions

  lemma FormIsFixpoint(t: Tree, wrap: bool)
    requires ValidTree(t) && HasFirst(t.body) && Wrapped(t.body) == wrap
    ensures Edit(t, wrap) == t <==> t.signedData.pre[0] == TargetVersion(wrap)
  {
    var e := Edit(t, wrap);
    if t.signedData.pre[0] == TargetVersion(wrap) {
      assert e.signedData.pre == t.signedData.pre;
    } else {
      assert e.signedData.pre[0] != t.signedData.pre[0];
    }
  }

  lemma OpposedVersions()
    ensures VERSION_1 != VERSION_3
  {
    assert VERSION_1[2] != VERSION_3[2];
  }

  /** Setting the version twice leaves the second one and the other siblings. */
  lemma EditTwice(t: Tree, wrap: bool)
    requires ValidTree(t) && HasFirst(t.body) && t.signedData.pre[0] == TargetVersion(wrap)
    requires ValidTree(Edit(t, !wrap)) && HasFirst(EditBody(t.body, !wrap))
    ensures Edit(Edit(t, !wrap), wrap) == t.(body := EditBody(EditBody(t.body, !wrap), wrap))
  {
    var e := Edit(Edit(t, !wrap), wrap);
    assert e.signedData.pre == t.signedData.pre;
  }

  lemma PrintedForm(t: Tree, wrap: bool)
    requires ValidTree(t) && HasFirst(t.body) && |Print(t)| < U32
    ensures Parse(Print(t)) == Some(t)
    ensures Rewrite(Print(t), wrap) == Ok(if Edit(t, wrap) == t then Print(t) else Print(Edit(t, wrap)))
  {
    hide Rewrite, Parse, Edit;
    ParseInvertsPrint(t, []);
    assert Print(t) + [] == Print(t);
    RewriteIsTreeEdit(Print(t), wrap);
  }

  /** Rewriting one way and back is printing the tree with its body edited twice. */
  lemma RewriteBack(x: bytes, wrap: bool)
    requires WellNested(x) && ValidTree(Parse(x).value)
    requires var t := Parse(x).value;
      && Wrapped(t.body) == wrap && t.signedData.pre[0] == TargetVersion(wrap)
      && HasFirst(EditBody(t.body, !wrap)) && Wrapped(EditBody(t.body, !wrap)) == !wrap
    requires Rewrite(x, !wrap).Ok? && |Rewrite(x, !wrap).value| < U32
    ensures var t := Parse(x).value;
      Rewrite(Rewrite(x, !wrap).value, wrap)
      == Ok(Print(t.(body := EditBody(EditBody(t.body, !wrap), wrap))))
  {
    hide Rewrite, Parse, Print, LenOctets, EditBody;
    var t := Parse(x).value;
    RewriteIsTreeEdit(x, !wrap);
    EditIsValid(t, !wrap);
    var e := Edit(t, !wrap);
    OpposedVersions();
    assert e.signedData.pre[0] == TargetVersion(!wrap) != t.signedData.pre[0];
    PrintedForm(e, wrap);
    EditTwice(t, wrap);
    assert Edit(e, wrap).signedData.pre[0] != e.signedData.pre[0];
  }

  /** Octets equal a printed tree only when they parse to that tree. */
  lemma PrintedTwice(x: bytes, t: Tree, body: bytes)
    requires Parse(x) == Some(t) && ValidTree(t) && |x| < U32
    requires Print(t.(body := body)) == x
    ensures body == t.body
  {
    hide Parse, Print;
    var u := t.(body := body);
    ParseInvertsPrint(u, []);
    assert Print(u) + [] == x;
  }

  /** Normalize undoes wrap on a native version-1 input exactly when the input is canonical
      and eContent holds one TLV. */
  lemma NormalizeUndoesWrap(x: bytes)
    requires WellNested(x) && Native(Parse(x).value) && |x| < U32
    requires Wrap(x).Ok? && |Wrap(x).value| < U32
    ensures Normalize(Wrap(x).value) == Ok(x) <==> Canonical(x) && SingleTlv(Parse(x).value.body)
  {
    hide Rewrite, Print, LenOctets, Canonical, Parse;
    var t := Parse(x).value;
    var first := First(t.body);
    WrapFits(x);
    EmitIsTlv(OCTET_STRING, first);
    TlvIsItsFirst(Emit(OCTET_STRING, first));
    RewriteBack(x, false);
    SingleIsFirst(t.body);
    FormIsFixpoint(t, false);
    CanonicalReprints(x, false);
    if Print(t.(body := first)) == x {
      PrintedTwice(x, t, first);
    }
  }

  /** The first TLV is no longer than the input it was found in. */
  lemma WrapFits(x: bytes)
    requires WellNested(x)
    ensures |First(Parse(x).value.body)| <= |x|
  {
    hide Parse, Print, LenOctets, ReadHeader, Locate;
    var s := LocateIsTree(x);
  }

  /** A payload that starts with an OCTET STRING is taken for a wrapper, so wrapping does not
      bring the outer one back. */
  lemma InnerWrapperStays(y: bytes)
    requires WellNested(y) && Generic(Parse(y).value) && |y| < U32
    requires Normalize(y).Ok? && |Normalize(y).value| < U32
    requires Wrapped(Content(First(Parse(y).value.body)))
    ensures Wrap(Normalize(y).value) != Ok(y)
  {
    hide Rewrite, Parse, Print, LenOctets;
    var t := Parse(y).value;
    RewriteIsTreeEdit(y, false);
    EditIsValid(t, false);
    RewriteRefinesTreeEdit(y, false);
    var e := Edit(t, false);
    OpposedVersions();
    RewriteIsTreeEdit(Normalize(y).value, true);
    EditIsValid(e, true);
    var u := Edit(e, true);
    assert u.signedData.pre == t.signedData.pre && u.body == e.body;
    assert u == t.(body := e.body) && u.signedData.pre[0] != e.signedData.pre[0];
    EditChangesBody(t.body, false);
    if Print(u) == y {
      PrintedTwice(y, t, e.body);
    }
  }

  /** Wrap undoes normalize on a wrapped version-3 input exactly when the input is canonical,
      eContent is one minimally printed OCTET STRING, and its payload is one TLV that is not
      an OCTET STRING itself. */
  lemma WrapUndoesNormalize(y: bytes)
    requires WellNested(y) && Generic(Parse(y).value) && |y| < U32
    requires Normalize(y).Ok? && |Normalize(y).value| < U32
    ensures var payload := Content(First(Parse(y).value.body));
      Wrap(Normalize(y).value) == Ok(y) <==>
        && Canonical(y) && SingleTlv(payload) && !Wrapped(payload)
        && Parse(y).value.body == Emit(OCTET_STRING, payload)
  {
    hide Rewrite, Print, LenOctets, Canonical, Parse;
    var t := Parse(y).value;
    var payload := Content(First(t.body));
    if Wrapped(payload) {
      InnerWrapperStays(y);
      return;
    }
    RewriteBack(y, true);
    SingleIsFirst(payload);
    FormIsFixpoint(t, true);
    CanonicalReprints(y, true);
    var body := Emit(OCTET_STRING, First(payload));
    WrapFits(y);
    if Print(t.(body := body)) == y {
      PrintedTwice(y, t, body);
      FirstNotLonger(payload);
      EmitIsTlv(OCTET_STRING, First(payload));
      TlvIsItsFirst(body);
    }
  }

  lemma FirstNotLonger(s: bytes)
    requires HasFirst(s)
    ensures |First(s)| <= |s|
  {
    assert Flat(Split(s).value) == First(s) + Flat(Split(s).value[1..]);
  }

  /** What normalize returns passes the envelope check, and is a fixpoint of normalize,
      exactly when the payload it uncovered does not itself start with an OCTET STRING. */
  lemma NormalizeSettles(der: bytes)
    requires WellNested(der) && Normalize(der).Ok? && |Normalize(der).value| < U32
    requires ValidTree(Parse(der).value) && HasFirst(EditBody(Parse(der).value.body, false))
    ensures var payload := EditBody(Parse(der).value.body, false);
      && (CheckEnvelope(Normalize(der).value).Ok? <==> !Wrapped(payload))
      && (Normalize(Normalize(der).value) == Normalize(der) <==> !Wrapped(payload))
  {
    hide Rewrite, Parse, Print, LenOctets, EditBody, Canonical;
    var t := Parse(der).value;
    var n := Normalize(der).value;
    var e := Edit(t, false);
    RewriteIsTreeEdit(der, false);
    EditIsValid(t, false);
    RewriteRefinesTreeEdit(der, false);
    RewriteIsTreeEdit(n, false);
    if !Wrapped(e.body) {
      FormIsFixpoint(e, false);
    } else {
      EditChangesBody(e.body, false);
      EditIsValid(e, false);
      assert Edit(e, false) != e;
      StillWrapped(n, e);
    }
  }

  /** Removing a wrapper gives other octets than before. */
  lemma StillWrapped(n: bytes, e: Tree)
    requires Parse(n) == Some(e) && ValidTree(e) && HasFirst(e.body) && Wrapped(e.body) && |n| < U32
    ensures Print(Edit(e, false)) != n
  {
    hide Parse, Print, LenOctets, EditBody;
    var u := Edit(e, false);
    EditIsValid(e, false);
    EditChangesBody(e.body, false);
    if |Print(u)| < U32 {
      ParseInvertsPrint(u, []);
      assert Print(u) + [] == Print(u);
    }
  }

  // ------------------------------------------------------------------------ trailing octets

  /** Octets after the outermost SEQUENCE are not part of the tree. */
  lemma ParseIgnoresTrailer(der: bytes, trailer: bytes)
    requires Parse(der).Some?
    ensures Parse(der + trailer) == Parse(der)
  {
    hide ReadHeader, ParseContent;
    var h := ReadHeader(der, 0).value;
    var padded := der + trailer;
    assert padded[0..|der|] == der[0..|der|];
    ReadHeaderLocal(der, 0, padded, 0, |der|);
    assert padded[h.contentStart..h.contentEnd] == der[h.contentStart..h.contentEnd];
  }

  /** Padding after a native signature changes nothing about its wrapped form, and the padded
      signature passes the envelope check as the plain one does. */
  lemma PaddingIsIgnored(sig: bytes, trailer: bytes)
    requires WellNested(sig) && Native(Parse(sig).value)
    ensures WellNested(sig + trailer) && Wrap(sig + trailer) == Wrap(sig)
    ensures CheckEnvelope(sig) == Ok(()) && CheckEnvelope(sig + trailer) == Ok(())
  {
    hide Rewrite, Parse, Print, LenOctets, EditBody;
    var t := Parse(sig).value;
    ParseIgnoresTrailer(sig, trailer);
    RewriteIsTreeEdit(sig, true);
    RewriteIsTreeEdit(sig + trailer, true);
    RewriteIsTreeEdit(sig, false);
    RewriteIsTreeEdit(sig + trailer, false);
    FormIsFixpoint(t, false);
    OpposedVersions();
    assert Edit(t, true).signedData.pre[0] != t.signedData.pre[0];
  }

  // -------------------------------------------------------- where the check is not exact

  const OVERRUN: bytes := [0x30, 0x15, 0xA0, 0x13, 0x30, 0x11, 0x02, 0x01, 0x01, 0x30, 0x0C, 0xA0, 0x04,
                           4, 4, 4, 4, 4, 4, 0, 0, 0, 0]

  lemma OneChild(b: bytes, start: nat, end: nat)
    requires ReadHeader(b, start).Ok? && start < end <= ReadHeader(b, start).value.contentEnd
    ensures var h := ReadHeader(b, start).value;
      Children(b, start, end) == Ok([Child(h.tag, start, h.contentStart, h.contentEnd)])
  {
    var h := ReadHeader(b, start).value;
    var c := Child(h.tag, start, h.contentStart, h.contentEnd);
    assert [c] + [] == [c];
  }

  lemma LocateOverrun()
    ensures Locate(OVERRUN) == Ok(Spans(2, 23,
      Child(0xA0, 2, 4, 23), Child(0x30, 4, 6, 23), Child(0x02, 6, 8, 9), Child(0x30, 9, 11, 23),
      Child(0xA0, 11, 13, 17), Child(0x04, 13, 15, 19)))
  {
    var der := OVERRUN;
    var version, encap, eContent, rest := Child(0x02, 6, 8, 9), Child(0x30, 9, 11, 23), Child(0xA0, 11, 13, 17),
        Child(0x04, 17, 19, 23);
    OneChild(der, 2, 23);
    OneChild(der, 4, 23);
    OneChild(der, 9, 23);
    assert Children(der, 6, 23) == Ok([version] + [encap]);
    OneChild(der, 17, 23);
    assert Children(der, 11, 23) == Ok([eContent] + [rest]);
    OneChild(der, 13, 17);
    assert ChildTags([version, encap]) == [0x02, 0x30];
    assert IndexOf([0x02, 0x30], 0x30) == 1 + IndexOf([0x02, 0x30][1..], 0x30) == 1;
  }

  /** When eContent's first child ends outside eContent, a wrapped envelope can pass the check:
      here the OCTET STRING reaches two octets too far, so that dropping its header leaves
      every octet as it was. */
  lemma OverrunningWrapperPasses()
    ensures Locate(OVERRUN).Ok? && Locate(OVERRUN).value.first.tag == OCTET_STRING
    ensures CheckEnvelope(OVERRUN) == Ok(())
  {
    LocateOverrun();
    hide Locate, NewLevel, LenOctets;
    var der, s := OVERRUN, Locate(OVERRUN).value;
    LocateFindsPath(der);
    OverrunBody();
    EmitInPlace(der, s.eContent, der[13..17]);
    LevelInPlace(der, s.encap, [], 11, s.eContent, der[11..17]);
    LevelInPlace(der, s.signedData, VERSION_1, 9, s.encap, der[9..23]);
    LevelInPlace(der, s.content, [], 4, s.signedData, der[4..23]);
    LevelInPlace(der, Outer(s), [], 2, s.content, der[2..23]);
    assert der[0..23] == der;
  }

  lemma OverrunBody()
    ensures OVERRUN[15..19] == OVERRUN[13..17] && OVERRUN[6..9] == VERSION_1
    ensures forall n :: 0 <= n < 0x80 ==> LenOctets(n) == [n]
    ensures OVERRUN[1..2] == [21] && OVERRUN[3..4] == [19] && OVERRUN[5..6] == [17] && OVERRUN[10..11] ==
        [12] && OVERRUN[12..13] == [4]
  {
    var der := OVERRUN;
    assert der[1] == 21 && der[3] == 19 && der[5] == 17 && der[10] == 12 && der[12] == 4;
    assert der[6] == 2 && der[7] == 1 && der[8] == 1;
    assert der[13] == der[14] == der[15] == der[16] == der[17] == der[18] == 4;
    assert der[15..19] == [4, 4, 4, 4] == der[13..17];
    assert der[6..9] == VERSION_1;
  }
}
