/** Constructed content as a list of whole TLVs, each kept as its raw octets. This is the
    strict reading: every TLV must end inside the content it belongs to. */
module DerItems {
  import opened Bytes
  import opened DerCodec

  /** Exactly one TLV, header and content, nothing before or after. */
  predicate IsTlv(raw: bytes) {
    ReadHeader(raw, 0).Ok? && ReadHeader(raw, 0).value.contentEnd == |raw|
  }

  predicate AreTlvs(items: seq<bytes>) {
    forall i :: 0 <= i < |items| ==> IsTlv(items[i])
  }

  function Content(raw: bytes): bytes
    requires IsTlv(raw)
  {
    raw[ReadHeader(raw, 0).value.contentStart..]
  }

  function Flat(items: seq<bytes>): bytes {
    if items == [] then [] else items[0] + Flat(items[1..])
  }

  lemma FlatCons(raw: bytes, rest: seq<bytes>)
    ensures Flat([raw] + rest) == raw + Flat(rest)
  {
    assert ([raw] + rest)[1..] == rest;
  }

  /** The first TLV of a buffer, cut out of it. */
  lemma HeadIsTlv(s: bytes)
    requires ReadHeader(s, 0).Ok?
    ensures var h := ReadHeader(s, 0).value;
      ReadHeader(s[..h.contentEnd], 0) == Ok(h) && IsTlv(s[..h.contentEnd])
  {
    hide ReadHeader;
    var n := ReadHeader(s, 0).value.contentEnd;
    assert s[0..0 + n] == s[..n][0..0 + n];
    ReadHeaderLocal(s, 0, s[..n], 0, n);
  }

  lemma SplitFirst(s: bytes)
    requires s != [] && Split(s).Some?
    ensures ReadHeader(s, 0).Ok?
    ensures var n := ReadHeader(s, 0).value.contentEnd;
      Split(s[n..]).Some? && Split(s).value == [s[..n]] + Split(s[n..]).value
  {
    hide ReadHeader;
  }

  /** Splits content into its TLVs; `None` when it is not a list of TLVs. */
  function Split(s: bytes): (r: Option<seq<bytes>>)
    ensures r.Some? ==> AreTlvs(r.value) && Flat(r.value) == s
  {
    if s == [] then Some([])
    else
      match ReadHeader(s, 0)
      case Err(_) => None
      case Ok(h) =>
        match Split(s[h.contentEnd..])
        case None => None
        case Some(rest) =>
          HeadIsTlv(s);
          FlatCons(s[..h.contentEnd], rest);
          Some([s[..h.contentEnd]] + rest)
  }

  function Tags(items: seq<bytes>): (r: bytes)
    requires AreTlvs(items)
    ensures |r| == |items| && forall i :: 0 <= i < |items| ==> r[i] == items[i][0]
  {
    seq(|items|, i requires 0 <= i < |items| => items[i][0])
  }

  lemma EmitIsTlv(tag: byte, content: bytes)
    requires |content| < U32
    ensures IsTlv(Emit(tag, content)) && Emit(tag, content)[0] == tag
    ensures Content(Emit(tag, content)) == content
  {
    ReadInvertsEmit([], tag, content, []);
    assert [] + Emit(tag, content) + [] == Emit(tag, content);
  }

  lemma {:induction false} FlatAppend(x: seq<bytes>, y: seq<bytes>)
    ensures Flat(x + y) == Flat(x) + Flat(y)
  {
    if x == [] {
      assert x + y == y;
    } else {
      FlatAppend(x[1..], y);
      assert (x + y)[1..] == x[1..] + y;
    }
  }

  /** Parsing inverts concatenation: a list of TLVs is recovered from its octets. */
  lemma {:induction false} SplitFlat(items: seq<bytes>)
    requires AreTlvs(items)
    ensures Split(Flat(items)) == Some(items)
  {
    if items != [] {
      var raw, rest := items[0], Flat(items[1..]);
      var s := raw + rest;
      assert Flat(items) == s;
      assert s[..|raw|] == raw && s[|raw|..] == rest;
      ReadHeaderLocal(raw, 0, s, 0, |raw|);
      SplitFlat(items[1..]);
      assert [raw] + items[1..] == items;
    }
  }

  /** What the reader's children are, told in octets: child `k` of `b[start..end]` is the
      k-th TLV, the ones before it fill the octets before it, and so after it. */
  ghost predicate ChildIs(b: bytes, start: nat, end: nat, items: seq<bytes>, k: nat, c: Child)
    requires k < |items| && AreTlvs(items)
  {
    && start <= c.start < c.contentStart <= c.contentEnd <= end <= |b|
    && ReadHeader(b, c.start) == Ok(Header(c.tag, c.contentStart, c.contentEnd))
    && b[start..c.start] == Flat(items[..k])
    && b[c.start..c.contentEnd] == items[k]
    && b[c.contentStart..c.contentEnd] == Content(items[k])
    && b[c.contentEnd..end] == Flat(items[k + 1..])
  }

  /** The first TLV of a range, seen through the strict reading and through the reader. */
  lemma FirstItem(b: bytes, start: nat, end: nat)
    requires start < end <= |b| && Split(b[start..end]).Some?
    ensures ReadHeader(b, start).Ok? && ReadHeader(b, start).value.contentEnd <= end
    ensures var mid := ReadHeader(b, start).value.contentEnd;
      && Split(b[mid..end]).Some?
      && Split(b[start..end]).value == [b[start..mid]] + Split(b[mid..end]).value
      && Content(b[start..mid]) == b[ReadHeader(b, start).value.contentStart..mid]
  {
    hide ReadHeader, Split;
    var s := b[start..end];
    SplitFirst(s);
    var h := ReadHeader(s, 0).value;
    assert s[0..0 + |s|] == b[start..start + |s|];
    ReadHeaderLocal(s, 0, b, start, |s|);
    var mid := start + h.contentEnd;
    assert s[h.contentEnd..] == b[mid..end] && s[..h.contentEnd] == b[start..mid];
    HeadIsTlv(s);
    SliceOfSlice(b, start, mid, h.contentStart, h.contentEnd);
  }

  lemma ChildIsShift(b: bytes, start: nat, mid: nat, end: nat, tail: seq<bytes>, k: nat, c: Child)
    requires start <= mid && AreTlvs(tail) && k < |tail| && ChildIs(b, mid, end, tail, k, c)
    requires IsTlv(b[start..mid])
    ensures ChildIs(b, start, end, [b[start..mid]] + tail, k + 1, c)
  {
    var raw := b[start..mid];
    var items := [raw] + tail;
    assert items[..k + 1] == [raw] + tail[..k];
    assert Flat(items[..k + 1]) == raw + Flat(tail[..k]) by {
      assert items[..k + 1][1..] == tail[..k];
    }
    assert b[start..c.start] == raw + b[mid..c.start];
    assert items[k + 2..] == tail[k + 1..];
  }

  lemma {:induction false} ChildrenAreItems(b: bytes, start: nat, end: nat)
    requires start <= end <= |b| && Split(b[start..end]).Some?
    ensures Children(b, start, end).Ok?
    ensures var v, items := Children(b, start, end).value, Split(b[start..end]).value;
      |v| == |items| && ChildTags(v) == Tags(items)
      && forall k :: 0 <= k < |v| ==> ChildIs(b, start, end, items, k, v[k])
    decreases end - start
  {
    hide ReadHeader, Content, ChildIs, IsTlv;
    if start < end {
      FirstItem(b, start, end);
      var h := ReadHeader(b, start).value;
      var mid := h.contentEnd;
      ChildrenAreItems(b, mid, end);
      var v, tail := Children(b, mid, end).value, Split(b[mid..end]).value;
      var raw := b[start..mid];
      var items, head := [raw] + tail, Child(h.tag, start, h.contentStart, mid);
      assert items[0] == raw;
      FirstChildIs(b, start, end, items, head);
      var w := [head] + v;
      assert Children(b, start, end).value == w;
      forall k | 0 <= k < |w| ensures ChildIs(b, start, end, items, k, w[k]) {
        if k > 0 {
          ChildIsShift(b, start, mid, end, tail, k - 1, v[k - 1]);
        }
      }
      TagsAgree(b, start, end, items, w);
    }
  }

  lemma FirstChildIs(b: bytes, start: nat, end: nat, items: seq<bytes>, head: Child)
    requires start < end <= |b| && Split(b[start..end]) == Some(items) && |items| > 0
    requires ReadHeader(b, start) == Ok(Header(head.tag, head.contentStart, head.contentEnd))
    requires head.start == start && head.contentEnd <= end
    ensures ChildIs(b, start, end, items, 0, head)
  {
    FirstItem(b, start, end);
    assert items[..0] == [] && items[1..] == Split(b[head.contentEnd..end]).value;
  }

  lemma TagsAgree(b: bytes, start: nat, end: nat, items: seq<bytes>, v: seq<Child>)
    requires |v| == |items| && AreTlvs(items)
    requires forall k :: 0 <= k < |v| ==> ChildIs(b, start, end, items, k, v[k])
    ensures ChildTags(v) == Tags(items)
  {
    forall k | 0 <= k < |v| ensures ChildTags(v)[k] == Tags(items)[k] {
      assert ChildIs(b, start, end, items, k, v[k]);
      assert items[k][0] == b[v[k].start];
    }
  }

  // ------------------------------------------------------------------ printed lists

  function EmitAll(pairs: seq<(byte, bytes)>): bytes {
    if pairs == [] then [] else Emit(pairs[0].0, pairs[0].1) + EmitAll(pairs[1..])
  }

  /** The spans of `pairs` printed one after the other from `at`. */
  function SpansFrom(pairs: seq<(byte, bytes)>, at: nat): (r: seq<Child>)
    ensures |r| == |pairs|
  {
    if pairs == [] then []
    else
      var n := |pairs[0].1|;
      var contentStart := at + 1 + |LenOctets(n)|;
      [Child(pairs[0].0, at, contentStart, contentStart + n)] + SpansFrom(pairs[1..], contentStart + n)
  }

  /** For every list of pairs, at any offset and before any suffix, the reader returns
      exactly those pairs. */
  lemma {:induction false} ChildrenInvertEmit(pre: bytes, pairs: seq<(byte, bytes)>, post: bytes)
    requires forall i :: 0 <= i < |pairs| ==> |pairs[i].1| < U32
    ensures Children(pre + EmitAll(pairs) + post, |pre|, |pre| + |EmitAll(pairs)|)
         == Ok(SpansFrom(pairs, |pre|))
    decreases |pairs|
  {
    hide ReadHeader, LenOctets;
    if pairs != [] {
      var first, rest := Emit(pairs[0].0, pairs[0].1), EmitAll(pairs[1..]);
      var b := pre + EmitAll(pairs) + post;
      FirstPair(pre, first, rest, post);
      ReadInvertsEmit(pre, pairs[0].0, pairs[0].1, rest + post);
      var n := |pairs[0].1|;
      assert ReadHeader(b, |pre|).value.contentEnd == |pre| + 1 + |LenOctets(n)| + n == |pre + first|;
      ChildrenInvertEmit(pre + first, pairs[1..], post);
      assert |pre| + |EmitAll(pairs)| == |pre + first| + |rest|;
    }
  }

  lemma FirstPair(pre: bytes, first: bytes, rest: bytes, post: bytes)
    ensures pre + (first + rest) + post == pre + first + (rest + post)
    ensures pre + (first + rest) + post == (pre + first) + rest + post
  {
  }

  /** The spans are contiguous, cover the printed octets, and hold the pairs. */
  lemma {:induction false} SpansPartition(pre: bytes, pairs: seq<(byte, bytes)>, post: bytes, i: nat)
    requires i < |pairs|
    ensures var v := SpansFrom(pairs, |pre|);
      var b := pre + EmitAll(pairs) + post;
      && v[i].start == (if i == 0 then |pre| else v[i - 1].contentEnd)
      && (i == |pairs| - 1 ==> v[i].contentEnd == |pre| + |EmitAll(pairs)|)
      && v[i].start < v[i].contentStart <= v[i].contentEnd <= |pre| + |EmitAll(pairs)|
      && v[i].tag == pairs[i].0
      && b[v[i].contentStart..v[i].contentEnd] == pairs[i].1
    decreases |pairs|
  {
    hide LenOctets;
    var first, rest := Emit(pairs[0].0, pairs[0].1), EmitAll(pairs[1..]);
    FirstPair(pre, first, rest, post);
    var n := |pairs[0].1|;
    assert |first| == 1 + |LenOctets(n)| + n;
    var v, w := SpansFrom(pairs, |pre|), SpansFrom(pairs[1..], |pre + first|);
    assert v[1..] == w;
    if i > 0 {
      SpansPartition(pre + first, pairs[1..], post, i - 1);
      assert v[i] == w[i - 1];
      assert i > 1 ==> v[i - 1] == w[i - 2];
      assert |EmitAll(pairs)| == |first| + |rest|;
    } else {
      var front := pre + [pairs[0].0] + LenOctets(n);
      assert pre + first + (rest + post) == front + pairs[0].1 + (rest + post);
      Middle(front, pairs[0].1, rest + post);
      assert |pairs| == 1 ==> rest == [];
    }
  }
}
