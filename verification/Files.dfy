/** An open file as its octets and a cursor, and a hasher as the octets it absorbed. */
module Files {
  import opened Bytes

  function Min(a: nat, b: nat): nat {
    if a < b then a else b
  }

  /** The part of `[start, end)` that lies in the data. */
  function Clip(data: bytes, start: nat, end: nat): bytes {
    if end <= start || |data| <= start then [] else data[start..Min(end, |data|)]
  }

  /** Octets written over the data at an offset; a gap before them is filled with zeros. */
  function WriteAt(data: bytes, at: nat, b: bytes): bytes {
    if b == [] then data
    else
      (if at <= |data| then data[..at] else data + Zeros(at - |data|))
      + b
      + (if at + |b| <= |data| then data[at + |b|..] else [])
  }

  lemma WriteAtTwice(data: bytes, at: nat, a: bytes, b: bytes)
    requires a != []
    ensures WriteAt(WriteAt(data, at, a), at + |a|, b) == WriteAt(data, at, a + b)
  {
    var once := WriteAt(data, at, a);
    if b == [] {
      assert a + b == a;
    } else {
      var front := if at <= |data| then data[..at] else data + Zeros(at - |data|);
      var end := at + |a| + |b|;
      var back := if end <= |data| then data[end..] else [];
      var after := if at + |a| <= |data| then data[at + |a|..] else [];
      assert once == front + a + after;
      assert once[..at + |a|] == front + a;
      assert (if end <= |once| then once[end..] else []) == back;
      assert WriteAt(once, at + |a|, b) == front + a + b + back;
      assert front + a + b == front + (a + b);
    }
  }

  /** Overwriting the middle of three parts. */
  lemma WriteAtMiddle(x: bytes, y: bytes, z: bytes, b: bytes)
    requires |b| == |y| > 0
    ensures WriteAt(x + y + z, |x|, b) == x + b + z
  {
    var d := x + y + z;
    assert d[..|x|] == x && d[|x| + |b|..] == z;
  }

  class File {
    var data: bytes
    var pos: nat

    constructor (octets: bytes)
      ensures data == octets && pos == 0
    {
      data, pos := octets, 0;
    }

    method Seek(to: nat)
      modifies this`pos
      ensures pos == to
    {
      pos := to;
    }

    method SeekEnd() returns (at: nat)
      modifies this`pos
      ensures pos == at == |data|
    {
      pos := |data|;
      at := pos;
    }

    /** Reads up to `n` octets; fewer only at the end of the file. */
    method Read(n: nat) returns (buf: bytes)
      modifies this`pos
      ensures buf == Clip(data, old(pos), old(pos) + n) && pos == old(pos) + |buf|
    {
      buf := Clip(data, pos, pos + n);
      pos := pos + |buf|;
    }

    method ReadU16() returns (r: Result<nat>)
      modifies this`pos
      ensures r == Read16(data, old(pos)) && (r.Ok? ==> pos == old(pos) + 2)
    {
      r := Read16(data, pos);
      if r.Ok? { pos := pos + 2; }
    }

    method ReadU32() returns (r: Result<nat>)
      modifies this`pos
      ensures r == Read32(data, old(pos)) && (r.Ok? ==> pos == old(pos) + 4)
    {
      r := Read32(data, pos);
      if r.Ok? { pos := pos + 4; }
    }

    method ReadExact(n: nat) returns (r: Result<bytes>)
      modifies this`pos
      ensures r == if old(pos) + n <= |data| then Ok(data[old(pos)..old(pos) + n]) else Err(UnexpectedEof)
    {
      if pos + n <= |data| {
        r := Ok(data[pos..pos + n]);
        pos := pos + n;
      } else {
        r := Err(UnexpectedEof);
      }
    }

    method WriteAll(b: bytes)
      modifies this
      ensures data == WriteAt(old(data), old(pos), b) && pos == old(pos) + |b|
    {
      data := WriteAt(data, pos, b);
      pos := pos + |b|;
    }
  }

  class Hasher {
    var absorbed: bytes

    constructor ()
      ensures absorbed == []
    {
      absorbed := [];
    }

    method Update(b: bytes)
      modifies this
      ensures absorbed == old(absorbed) + b
    {
      absorbed := absorbed + b;
    }
  }

  const CHUNK: nat := 65536

  /** One chunk further: either the data has ended, and the range with it, or the range read
      so far grows by the chunk. */
  lemma ClipChunk(data: bytes, start: nat, at: nat, end: nat)
    requires start <= at < end
    ensures var buf := Clip(data, at, at + Min(end - at, CHUNK));
      && |buf| <= end - at
      && (buf == [] ==> Clip(data, start, at) == Clip(data, start, end))
      && (buf != [] ==> at + |buf| <= |data| && Clip(data, start, at + |buf|) == Clip(data, start, at) + buf)
  {
    var n := Min(end - at, CHUNK);
    var buf := Clip(data, at, at + n);
    if at >= |data| {
      assert buf == [];
      assert Clip(data, start, at) == Clip(data, start, end);
    } else {
      assert buf == data[at..at + |buf|] && 0 < |buf| <= n;
      assert Clip(data, start, at + |buf|) == data[start..at + |buf|] == data[start..at] + buf;
    }
  }

  /** Feeds a range to the hasher in chunks. */
  method HashRange(f: File, hasher: Hasher, start: nat, end: nat)
    modifies f`pos, hasher
    ensures hasher.absorbed == old(hasher.absorbed) + Clip(f.data, start, end)
  {
    hide Clip;
    ClipEmpty(f.data, start, start);
    if end <= start {
      ClipEmpty(f.data, start, end);
      return;
    }
    f.Seek(start);
    ghost var was := hasher.absorbed;
    var remaining := end - start;
    while remaining > 0
      invariant 0 <= remaining <= end - start && f.pos == end - remaining
      invariant hasher.absorbed == was + Clip(f.data, start, end - remaining)
    {
      var at := f.pos;
      var buf := f.Read(Min(remaining, CHUNK));
      ClipChunk(f.data, start, at, end);
      if |buf| == 0 {
        assert buf == [];
        break;
      }
      assert was + Clip(f.data, start, at) + buf == was + (Clip(f.data, start, at) + buf);
      hasher.Update(buf);
      remaining := remaining - |buf|;
    }
  }

  lemma ClipEmpty(data: bytes, start: nat, end: nat)
    requires end <= start
    ensures Clip(data, start, end) == []
  {
  }

  /** Copies a range to the same offsets of another file, in chunks. */
  method CopyRange(src: File, dst: File, start: nat, end: nat)
    requires src != dst
    modifies src`pos, dst
    ensures dst.data == WriteAt(old(dst.data), start, Clip(src.data, start, end))
  {
    hide Clip;
    ClipEmpty(src.data, start, start);
    if end <= start {
      ClipEmpty(src.data, start, end);
      return;
    }
    src.Seek(start);
    dst.Seek(start);
    ghost var was := dst.data;
    var remaining := end - start;
    while remaining > 0
      invariant 0 <= remaining <= end - start && src.pos == dst.pos == end - remaining
      invariant remaining < end - start ==> |Clip(src.data, start, src.pos)| == src.pos - start
      invariant dst.data == WriteAt(was, start, Clip(src.data, start, src.pos))
    {
      var at := src.pos;
      var buf := src.Read(Min(remaining, CHUNK));
      ClipChunk(src.data, start, at, end);
      if |buf| == 0 {
        assert buf == [];
        break;
      }
      if at > start {
        WriteAtTwice(was, start, Clip(src.data, start, at), buf);
      } else {
        assert [] + buf == buf;
      }
      dst.WriteAll(buf);
      remaining := remaining - |buf|;
    }
  }
}
