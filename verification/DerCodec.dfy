/** The hand-written TLV printer and parser of the splice engine: minimal definite
    lengths out, definite lengths of at most four octets in. */
module DerCodec {
  import opened Bytes

  // ---------------------------------------------------------------- big-endian numbers

  function BeValue(s: bytes): nat {
    if s == [] then 0 else BeValue(s[..|s| - 1]) * 256 + s[|s| - 1]
  }

  /** The big-endian octets of `n` without leading zeros; zero is one octet. */
  function BeOctets(n: nat): (r: bytes)
    ensures |r| >= 1
    ensures n > 0 ==> r[0] != 0
  {
    if n < 256 then [n] else BeOctets(n / 256) + [n % 256]
  }

  function Pow256(k: nat): nat {
    if k == 0 then 1 else 256 * Pow256(k - 1)
  }

  lemma {:induction false} BeOctetsValue(n: nat)
    ensures BeValue(BeOctets(n)) == n
  {
    if n < 256 {
      assert BeValue([n]) == BeValue([]) * 256 + n;
    } else {
      BeOctetsValue(n / 256);
      var r := BeOctets(n / 256) + [n % 256];
      assert r[..|r| - 1] == BeOctets(n / 256);
    }
  }

  lemma {:induction false} BeValueBound(s: bytes)
    ensures BeValue(s) < Pow256(|s|)
  {
    if s != [] {
      BeValueBound(s[..|s| - 1]);
    }
  }

  /** `k` octets are enough exactly for the numbers below 256^k. */
  lemma {:induction false} BeOctetsCount(n: nat, k: nat)
    requires k >= 1
    ensures |BeOctets(n)| <= k <==> n < Pow256(k)
    decreases k
  {
    if k == 1 {
      assert Pow256(1) == 256 * Pow256(0);
    } else if n >= 256 {
      BeOctetsCount(n / 256, k - 1);
      assert n < 256 * Pow256(k - 1) <==> n / 256 < Pow256(k - 1);
    } else {
      BeOctetsCount(n, 1);
      BeValueBound([n]);
      PowMonotone(1, k);
    }
  }

  lemma {:induction false} PowMonotone(j: nat, k: nat)
    requires j <= k
    ensures Pow256(j) <= Pow256(k)
  {
    if j < k {
      PowMonotone(j, k - 1);
    }
  }

  lemma PowValues()
    ensures Pow256(4) == U32 && Pow256(8) == USIZE
  {
    assert Pow256(4) == 256 * Pow256(3) == 256 * 256 * Pow256(2) == 256 * 256 * 256 * Pow256(1);
    assert Pow256(8) == 256 * Pow256(7) == 256 * 256 * Pow256(6) == 256 * 256 * 256 * Pow256(5);
    assert Pow256(5) == 256 * Pow256(4);
  }

  /** Octet strings of one length are told apart by their value. */
  lemma {:induction false} BeValueInjective(s: bytes, t: bytes)
    requires |s| == |t| && BeValue(s) == BeValue(t)
    ensures s == t
  {
    if s != [] {
      var n := |s| - 1;
      SameDigits(BeValue(s[..n]), s[n], BeValue(t[..n]), t[n]);
      BeValueInjective(s[..n], t[..n]);
      assert s == s[..n] + [s[n]] && t == t[..n] + [t[n]];
    }
  }

  lemma SameDigits(a: nat, x: byte, b: nat, y: byte)
    requires 256 * a + x == 256 * b + y
    ensures a == b && x == y
  {
  }

  // ------------------------------------------------------------------------ printing

  /** Length octets in minimal definite form. The first long-form octet is
      `0x80 | count`; counts above 8 do not occur for a 64-bit length. */
  function LenOctets(n: nat): (r: bytes)
    ensures |r| >= 1
  {
    if n < 0x80 then [n] else [(0x80 + |BeOctets(n)|) % 256] + BeOctets(n)
  }

  /** A whole TLV with a minimal length. */
  function Emit(tag: byte, content: bytes): bytes {
    [tag] + LenOctets(|content|) + content
  }

  /** The eight octets of `usize::to_be_bytes`, most significant first. */
  function ToBeBytes(n: nat, width: nat): (r: bytes)
    requires n < Pow256(width)
    ensures |r| == width
  {
    if width == 0 then [] else ToBeBytes(n / 256, width - 1) + [n % 256]
  }

  lemma {:induction false} ToBeBytesStrips(n: nat, width: nat)
    requires width >= 1 && n < Pow256(width)
    ensures |BeOctets(n)| <= width
    ensures ToBeBytes(n, width) == Zeros(width - |BeOctets(n)|) + BeOctets(n)
    decreases width
  {
    BeOctetsCount(n, width);
    if width == 1 {
      assert Pow256(1) == 256 * Pow256(0);
      assert ToBeBytes(n, 1) == ToBeBytes(n / 256, 0) + [n % 256];
    } else {
      ToBeBytesStrips(n / 256, width - 1);
      if n < 256 {
        assert ToBeBytes(n, width) == Zeros(width - 2) + [0] + [n];
        assert Zeros(width - 2) + [0] == Zeros(width - 1);
      }
    }
  }

  /** Appends the length octets to an output buffer: all eight big-endian octets,
      then the first nonzero position, then the tail from there. */
  method EncodeLen(len: nat, out: bytes) returns (extended: bytes)
    requires len < USIZE
    ensures extended == out + LenOctets(len)
  {
    hide BeOctets;
    if len < 0x80 {
      extended := out + [len];
    } else {
      PowValues();
      hide Pow256, ToBeBytes;
      var be := ToBeBytes(len, 8);
      ToBeBytesStrips(len, 8);
      ghost var lead := 8 - |BeOctets(len)|;
      var start := 0;
      assert be[lead] == BeOctets(len)[0];
      while start < |be| && be[start] == 0
        invariant 0 <= start <= lead
      {
        start := start + 1;
      }
      var sig := be[start..];
      assert sig == BeOctets(len);
      extended := out + [0x80 + |sig|];
      extended := extended + sig;
      assert extended == out + ([0x80 + |sig|] + sig);
    }
  }

  method EmitTlv(tag: byte, content: bytes) returns (out: bytes)
    requires |content| < USIZE
    ensures out == Emit(tag, content)
  {
    out := [tag];
    out := EncodeLen(|content|, out);
    out := out + content;
  }

  // ------------------------------------------------------------------------- reading

  datatype Header = Header(tag: byte, contentStart: nat, contentEnd: nat)

  function ReadHeader(b: bytes, pos: nat): (r: Result<Header>)
    ensures r.Ok? ==> pos + 2 <= r.value.contentStart <= r.value.contentEnd <= |b|
    ensures r.Ok? ==> r.value.tag == b[pos]
  {
    if pos + 1 >= |b| then Err(TruncatedHeader)
    else
      var l0 := b[pos + 1];
      if l0 < 0x80 then
        if pos + 2 + l0 > |b| then Err(LengthExceedsBuffer)
        else Ok(Header(b[pos], pos + 2, pos + 2 + l0))
      else
        var n := l0 - 0x80;
        if n == 0 || n > 4 || pos + 2 + n > |b| then Err(UnsupportedLength)
        else
          var len := BeValue(b[pos + 2..pos + 2 + n]);
          if pos + 2 + n + len > |b| then Err(LengthExceedsBuffer)
          else Ok(Header(b[pos], pos + 2 + n, pos + 2 + n + len))
  }

  /** The reader as written: the length is accumulated octet by octet. */
  method ReadHeaderAt(b: bytes, pos: nat) returns (r: Result<Header>)
    ensures r == ReadHeader(b, pos)
  {
    if pos + 1 >= |b| {
      return Err(TruncatedHeader);
    }
    var tag, l0 := b[pos], b[pos + 1];
    var contentStart, len := pos + 2, l0 as int;
    if l0 >= 0x80 {
      var n := l0 - 0x80;
      if n == 0 || n > 4 || pos + 2 + n > |b| {
        return Err(UnsupportedLength);
      }
      len := 0;
      for i := 0 to n
        invariant len == BeValue(b[pos + 2..pos + 2 + i])
      {
        len := len * 256 + b[pos + 2 + i];
        assert b[pos + 2..pos + 2 + i + 1][..i] == b[pos + 2..pos + 2 + i];
      }
      contentStart := pos + 2 + n;
    }
    var end := contentStart + len;
    if end > |b| {
      return Err(LengthExceedsBuffer);
    }
    return Ok(Header(tag, contentStart, end));
  }

  /** A header is read from the octets of its own TLV and from nothing else, so it
      reads the same wherever that TLV is placed. */
  lemma ReadHeaderLocal(b: bytes, p: nat, c: bytes, q: nat, n: nat)
    requires p + n <= |b| && q + n <= |c| && b[p..p + n] == c[q..q + n]
    requires ReadHeader(b, p).Ok? && ReadHeader(b, p).value.contentEnd <= p + n
    ensures ReadHeader(c, q)
         == Ok(Header(b[p], ReadHeader(b, p).value.contentStart - p + q,
                      ReadHeader(b, p).value.contentEnd - p + q))
  {
    var u := b[p..p + n];
    assert b[p] == u[0] == c[q] && b[p + 1] == u[1] == c[q + 1];
    if b[p + 1] >= 0x80 {
      var k := b[p + 1] - 0x80;
      assert p + 2 + k <= p + n;
      assert forall i :: p + 2 <= i < p + 2 + k ==> b[i] == u[i - p];
      assert forall i :: q + 2 <= i < q + 2 + k ==> c[i] == u[i - q];
      assert b[p + 2..p + 2 + k] == c[q + 2..q + 2 + k];
    }
  }

  /** The reader inverts the printer under any tag, at any offset, before any suffix. */
  lemma ReadInvertsEmit(pre: bytes, tag: byte, content: bytes, post: bytes)
    requires |content| < U32
    ensures var start := |pre| + 1 + |LenOctets(|content|)|;
      ReadHeader(pre + Emit(tag, content) + post, |pre|) == Ok(Header(tag, start, start + |content|))
  {
    var n, p := |content|, |pre|;
    var b := pre + Emit(tag, content) + post;
    assert b[p] == tag;
    assert b[p + 1] == LenOctets(n)[0];
    if n >= 0x80 {
      PowValues();
      BeOctetsCount(n, 4);
      BeOctetsValue(n);
      var k := |BeOctets(n)|;
      assert b[p + 2..p + 2 + k] == BeOctets(n);
    }
  }

  /** Lengths from 2^32 up are printed but never read back. */
  lemma LongLengthsAreRejected(pre: bytes, tag: byte, content: bytes, post: bytes)
    requires U32 <= |content| < USIZE
    ensures ReadHeader(pre + Emit(tag, content) + post, |pre|) == Err(UnsupportedLength)
  {
    var n, p := |content|, |pre|;
    var b := pre + Emit(tag, content) + post;
    PowValues();
    BeOctetsCount(n, 4);
    BeOctetsCount(n, 8);
    assert b[p + 1] == LenOctets(n)[0] == 0x80 + |BeOctets(n)|;
  }

  lemma {:induction false} FewestOctets(s: bytes)
    requires |s| >= 1
    ensures |BeOctets(BeValue(s))| <= |s|
    ensures |BeOctets(BeValue(s))| == |s| ==> BeOctets(BeValue(s)) == s
  {
    var n := BeValue(s);
    BeValueBound(s);
    BeOctetsCount(n, |s|);
    BeOctetsValue(n);
    if |BeOctets(n)| == |s| {
      BeValueInjective(BeOctets(n), s);
    }
  }

  /** Section 10.1 of X.690: any length octets the reader accepts for a content of
      this size are at least as many as the printer's, and equally many only when they
      are the printer's own. */
  lemma EncodedLengthIsMinimal(b: bytes, pos: nat)
    requires ReadHeader(b, pos).Ok?
    ensures var h := ReadHeader(b, pos).value;
      var octets, minimal := b[pos + 1..h.contentStart], LenOctets(h.contentEnd - h.contentStart);
      |minimal| <= |octets| && (|minimal| == |octets| ==> minimal == octets)
  {
    hide BeValue, BeOctets;
    var h := ReadHeader(b, pos).value;
    var n, octets := h.contentEnd - h.contentStart, b[pos + 1..h.contentStart];
    if b[pos + 1] < 0x80 {
      assert octets == [n];
    } else {
      var k := b[pos + 1] - 0x80;
      var s := b[pos + 2..pos + 2 + k];
      assert octets == [b[pos + 1]] + s && BeValue(s) == n;
      FewestOctets(s);
    }
  }

  /** More content never takes fewer length octets. */
  lemma LenOctetsMonotone(m: nat, n: nat)
    requires m <= n
    ensures |LenOctets(m)| <= |LenOctets(n)|
  {
    if m >= 0x80 {
      var k := |BeOctets(n)|;
      BeOctetsCount(n, k);
      BeOctetsCount(m, k);
    }
  }

  // ------------------------------------------------------------------------ children

  datatype Child = Child(tag: byte, start: nat, contentStart: nat, contentEnd: nat)

  /** The TLVs of `b` from `start` until the cursor reaches `end`. Each one is checked
      against the whole buffer only, so the last may reach past `end`. */
  function Children(b: bytes, start: nat, end: nat): (r: Result<seq<Child>>)
    ensures r.Ok? && start < end ==> |r.value| > 0 && r.value[0].start == start
    decreases end - start
  {
    if start >= end then Ok([])
    else
      var h :- ReadHeader(b, start);
      var rest :- Children(b, h.contentEnd, end);
      Ok([Child(h.tag, start, h.contentStart, h.contentEnd)] + rest)
  }

  ghost function Prepend(v: seq<Child>, r: Result<seq<Child>>): Result<seq<Child>> {
    if r.Ok? then Ok(v + r.value) else r
  }

  method ChildrenOf(b: bytes, start: nat, end: nat) returns (r: Result<seq<Child>>)
    ensures r == Children(b, start, end)
  {
    hide ReadHeader;
    var v: seq<Child> := [];
    var p := start;
    assert Children(b, start, end).Ok? ==> v + Children(b, start, end).value == Children(b, start, end).value;
    while p < end
      invariant Children(b, start, end) == Prepend(v, Children(b, p, end))
      decreases end - p
    {
      var header := ReadHeaderAt(b, p);
      if header.Err? {
        return Err(header.error);
      }
      var h := header.value;
      var child := Child(h.tag, p, h.contentStart, h.contentEnd);
      ghost var rest := Children(b, h.contentEnd, end);
      if rest.Ok? {
        assert v + ([child] + rest.value) == (v + [child]) + rest.value;
      }
      v := v + [child];
      p := h.contentEnd;
    }
    assert v + [] == v;
    return Ok(v);
  }

  /** Position of the first tag equal to `t`, or the length when there is none. */
  function IndexOf(tags: bytes, t: byte): (k: nat)
    ensures k <= |tags|
    ensures k < |tags| ==> tags[k] == t
    ensures t !in tags[..k]
  {
    if tags == [] || tags[0] == t then 0 else 1 + IndexOf(tags[1..], t)
  }

  function ChildTags(v: seq<Child>): (r: bytes)
    ensures |r| == |v| && forall i :: 0 <= i < |v| ==> r[i] == v[i].tag
  {
    seq(|v|, i requires 0 <= i < |v| => v[i].tag)
  }

  function FindChild(v: seq<Child>, tag: byte, missing: Error): Result<Child> {
    var k := IndexOf(ChildTags(v), tag);
    if k < |v| then Ok(v[k]) else Err(missing)
  }

  /** Every child the cursor visits is a TLV header that reads, and starts inside the range. */
  lemma {:induction false} ChildrenAreTlvs(b: bytes, start: nat, end: nat)
    requires Children(b, start, end).Ok?
    ensures forall c :: c in Children(b, start, end).value ==>
      start <= c.start < end && ReadHeader(b, c.start) == Ok(Header(c.tag, c.contentStart, c.contentEnd))
    decreases end - start
  {
    if start < end {
      ChildrenAreTlvs(b, ReadHeader(b, start).value.contentEnd, end);
    }
  }
}
