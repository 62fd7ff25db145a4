/** A PKCS#7 ContentInfo as a tree: the five nested containers on the path down to the
    encapsulated content, and at every level the siblings of that path as raw octets. The
    lengths of the path's own containers are not part of the tree. */
module Spine {
  import opened Bytes
  import opened DerCodec
  import opened DerItems

  const SEQUENCE: byte := 0x30
  const CONTEXT_0: byte := 0xA0
  const OCTET_STRING: byte := 0x04
  const INTEGER: byte := 0x02

  /** `INTEGER 1`, the version native Authenticode uses. */
  const VERSION_1: bytes := [0x02, 0x01, 0x01]
  /** `INTEGER 3`, the version section 5.1 of RFC 5652 asks for here. */
  const VERSION_3: bytes := [0x02, 0x01, 0x03]

  /** The siblings before and after the one child a level is entered through. */
  datatype Frame = Frame(pre: seq<bytes>, post: seq<bytes>)

  datatype Tree = Tree(
    contentInfo: Frame,   // around content [0]
    content: Frame,       // around SignedData
    signedData: Frame,    // around encapContentInfo; its first sibling is the version
    encap: Frame,         // around eContent [0]
    body: bytes)          // the octets of eContent

  // ------------------------------------------------------------------------- one level

  /** Enters content through its first child tagged `tag`. */
  function Enter(content: bytes, tag: byte): Option<(Frame, bytes)> {
    match Split(content)
    case None => None
    case Some(items) =>
      var k := IndexOf(Tags(items), tag);
      if k == |items| then None else Some((Frame(items[..k], items[k + 1..]), Content(items[k])))
  }

  function Around(f: Frame, raw: bytes): bytes {
    Flat(f.pre) + raw + Flat(f.post)
  }

  predicate ValidFrame(f: Frame, tag: byte) {
    AreTlvs(f.pre) && AreTlvs(f.post) && tag !in Tags(f.pre)
  }

  lemma {:induction false} IndexAfterPrefix(tags: bytes, t: byte, k: nat)
    requires k < |tags| && tags[k] == t && t !in tags[..k]
    ensures IndexOf(tags, t) == k
  {
    if k > 0 {
      assert tags[0] == tags[..k][0];
      assert tags[1..][..k - 1] == tags[..k][1..];
      IndexAfterPrefix(tags[1..], t, k - 1);
    }
  }

  lemma EnterIsValid(content: bytes, tag: byte)
    requires Enter(content, tag).Some?
    ensures ValidFrame(Enter(content, tag).value.0, tag)
  {
    var items := Split(content).value;
    var k := IndexOf(Tags(items), tag);
    assert Tags(items[..k]) == Tags(items)[..k];
  }

  /** Entering undoes surrounding, at one level. */
  lemma EnterAround(f: Frame, tag: byte, content: bytes)
    requires ValidFrame(f, tag) && |content| < U32
    ensures Enter(Around(f, Emit(tag, content)), tag) == Some((f, content))
  {
    var raw := Emit(tag, content);
    EmitIsTlv(tag, content);
    var items := f.pre + [raw] + f.post;
    FlatAppend(f.pre + [raw], f.post);
    FlatAppend(f.pre, [raw]);
    assert Flat([raw]) == raw;
    SplitFlat(items);
    var k := |f.pre|;
    assert Tags(items)[..k] == Tags(f.pre);
    IndexAfterPrefix(Tags(items), tag, k);
    assert items[..k] == f.pre && items[k + 1..] == f.post;
  }

  // ------------------------------------------------------------------------ whole tree

  function ParseContent(content: bytes): Option<Tree> {
    match Enter(content, CONTEXT_0)
    case None => None
    case Some((f0, c1)) =>
      match Enter(c1, SEQUENCE)
      case None => None
      case Some((f1, c2)) =>
        match Enter(c2, SEQUENCE)
        case None => None
        case Some((f2, c3)) =>
          if f2.pre == [] || f2.pre[0] == [] || f2.pre[0][0] != INTEGER then None
          else
            match Enter(c3, CONTEXT_0)
            case None => None
            case Some((f3, c4)) => Some(Tree(f0, f1, f2, f3, c4))
  }

  /** The strict tree of a ContentInfo. Octets after the outermost SEQUENCE are ignored. */
  function Parse(der: bytes): Option<Tree> {
    match ReadHeader(der, 0)
    case Err(_) => None
    case Ok(h) => if h.tag != SEQUENCE then None else ParseContent(der[h.contentStart..h.contentEnd])
  }

  predicate ValidTree(t: Tree) {
    && ValidFrame(t.contentInfo, CONTEXT_0)
    && ValidFrame(t.content, SEQUENCE)
    && ValidFrame(t.signedData, SEQUENCE)
    && t.signedData.pre != [] && t.signedData.pre[0][0] == INTEGER
    && ValidFrame(t.encap, CONTEXT_0)
  }

  function EncapContent(t: Tree): bytes {
    Around(t.encap, Emit(CONTEXT_0, t.body))
  }

  function SignedDataContent(t: Tree): bytes {
    Around(t.signedData, Emit(SEQUENCE, EncapContent(t)))
  }

  function InfoContent(t: Tree): bytes {
    Around(t.contentInfo, Emit(CONTEXT_0, Around(t.content, Emit(SEQUENCE, SignedDataContent(t)))))
  }

  /** The octets of a tree, with minimal lengths on the path. */
  function Print(t: Tree): bytes {
    Emit(SEQUENCE, InfoContent(t))
  }

  lemma ParseIsValid(der: bytes)
    requires Parse(der).Some?
    ensures ValidTree(Parse(der).value)
  {
    var h := ReadHeader(der, 0).value;
    var content := der[h.contentStart..h.contentEnd];
    EnterIsValid(content, CONTEXT_0);
    var c1 := Enter(content, CONTEXT_0).value.1;
    EnterIsValid(c1, SEQUENCE);
    var c2 := Enter(c1, SEQUENCE).value.1;
    EnterIsValid(c2, SEQUENCE);
    EnterIsValid(Enter(c2, SEQUENCE).value.1, CONTEXT_0);
  }

  lemma ParseContentInverts(t: Tree)
    requires ValidTree(t) && |InfoContent(t)| < U32
    ensures ParseContent(InfoContent(t)) == Some(t)
  {
    hide LenOctets;
    var c3 := EncapContent(t);
    var c2 := SignedDataContent(t);
    var c1 := Around(t.content, Emit(SEQUENCE, c2));
    EnterAround(t.contentInfo, CONTEXT_0, c1);
    EnterAround(t.content, SEQUENCE, c2);
    EnterAround(t.signedData, SEQUENCE, c3);
    EnterAround(t.encap, CONTEXT_0, t.body);
  }

  /** Parsing inverts printing, and is not disturbed by what follows. */
  lemma ParseInvertsPrint(t: Tree, trailer: bytes)
    requires ValidTree(t) && |Print(t)| < U32
    ensures Parse(Print(t) + trailer) == Some(t)
  {
    hide LenOctets, ParseContent;
    var content := InfoContent(t);
    ReadInvertsEmit([], SEQUENCE, content, trailer);
    var der := Print(t) + trailer;
    assert [] + Print(t) + trailer == der;
    var start := 1 + |LenOctets(|content|)|;
    assert der == ([SEQUENCE] + LenOctets(|content|)) + content + trailer;
    assert der[start..start + |content|] == content;
    ParseContentInverts(t);
  }

  // ----------------------------------------------------------------- the encapsulated body

  /** eContent holds a list of TLVs, the first of which is the content proper. */
  predicate HasFirst(body: bytes) {
    Split(body).Some? && body != []
  }

  function First(body: bytes): (r: bytes)
    requires HasFirst(body)
    ensures IsTlv(r) && |r| > 0 && r[0] == body[0] && r == Split(body).value[0]
  {
    Split(body).value[0]
  }

  predicate Wrapped(body: bytes)
    requires HasFirst(body)
  {
    body[0] == OCTET_STRING
  }

  /** Every child on every level ends inside its parent, down to the children of eContent. */
  predicate WellNested(der: bytes) {
    Parse(der).Some? && HasFirst(Parse(der).value.body)
  }

  function TargetVersion(wrap: bool): (r: bytes)
    ensures IsTlv(r) && r[0] == INTEGER
  {
    if wrap then VERSION_3 else VERSION_1
  }

  function EditBody(body: bytes, wrap: bool): bytes
    requires HasFirst(body)
  {
    if wrap == Wrapped(body) then body
    else if wrap then Emit(OCTET_STRING, First(body))
    else Content(First(body))
  }

  /** The tree edit: set the version and add or drop the OCTET STRING. */
  function Edit(t: Tree, wrap: bool): Tree
    requires ValidTree(t) && HasFirst(t.body)
  {
    t.(signedData := Frame([TargetVersion(wrap)] + t.signedData.pre[1..], t.signedData.post),
       body := EditBody(t.body, wrap))
  }

  lemma EditIsValid(t: Tree, wrap: bool)
    requires ValidTree(t) && HasFirst(t.body)
    ensures ValidTree(Edit(t, wrap))
  {
    var was, pre := t.signedData.pre, Edit(t, wrap).signedData.pre;
    forall i | 0 <= i < |pre| ensures Tags(pre)[i] != SEQUENCE {
      if i > 0 { assert Tags(was)[i] == Tags(pre)[i]; }
    }
  }
}
