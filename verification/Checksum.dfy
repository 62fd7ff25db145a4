/** The PE checksum: a 16-bit end-around-carry sum of the file's words, the checksum field
    left out, plus the file length. */
module Checksum {
  import opened Bytes
  import opened Files

  /** Carries folded back in: `(x & 0xFFFF) + (x >> 16)`. */
  function Fold16(x: nat): nat {
    x % 0x1_0000 + x / 0x1_0000
  }

  /** Word `i` as it is summed: zero where it starts at the field or two octets later. */
  function Word(data: bytes, field: nat, i: nat): (w: nat)
    requires 2 * i + 1 < |data|
    ensures w <= 0xFFFF
  {
    if 2 * i == field || 2 * i == field + 2 then 0
    else data[2 * i] as int + 256 * data[2 * i + 1] as int
  }

  /** The loop's accumulator after `n` words. */
  function FoldWords(data: bytes, field: nat, n: nat): (c: nat)
    requires 2 * n <= |data|
    ensures c <= 0xFFFF
  {
    if n == 0 then 0 else Fold16(FoldWords(data, field, n - 1) + Word(data, field, n - 1))
  }

  function WordSum(data: bytes, field: nat, n: nat): nat
    requires 2 * n <= |data|
  {
    if n == 0 then 0 else WordSum(data, field, n - 1) + Word(data, field, n - 1)
  }

  /** The end-around-carry value of a sum: the residue modulo 65535 that is zero for zero only. */
  function EndAroundCarry(sum: nat): (c: nat)
    ensures c <= 0xFFFF && (c == 0 <==> sum == 0) && c % 0xFFFF == sum % 0xFFFF
  {
    if sum == 0 then 0 else
      var c := 1 + (sum - 1) % 0xFFFF;
      assert sum - c == (sum - 1) / 0xFFFF * 0xFFFF;
      ModSame(sum, c, (sum - 1) / 0xFFFF);
      c
  }

  lemma ModSame(a: nat, b: nat, k: int)
    requires a == b + k * 0xFFFF
    ensures a % 0xFFFF == b % 0xFFFF
  {
  }

  /** The checksum, unless a counter or the final sum leaves 32 bits. A last odd octet is not
      part of any word. */
  function PeChecksum(data: bytes, field: nat): Result<nat> {
    if |data| / 2 * 2 >= U32 then Err(ArithmeticOverflow)
    else Add32(Fold16(FoldWords(data, field, |data| / 2)), |data|)
  }

  lemma CarryUnique(c: nat, f: nat)
    requires c <= 0xFFFF && f <= 0xFFFF && c % 0xFFFF == f % 0xFFFF && (c == 0 <==> f == 0)
    ensures c == f
  {
  }

  lemma FoldOnce(x: nat)
    requires x <= 0x1_FFFE
    ensures Fold16(x) == if x <= 0xFFFF then x else x - 0xFFFF
    ensures Fold16(x) <= 0xFFFF && Fold16(x) % 0xFFFF == x % 0xFFFF && (Fold16(x) == 0 <==> x == 0)
  {
    if x > 0xFFFF {
      ModSame(x, x - 0xFFFF, 1);
    }
  }

  lemma CarryStep(s: nat, w: nat)
    requires w <= 0xFFFF
    ensures EndAroundCarry(s + w) == Fold16(EndAroundCarry(s) + w)
  {
    hide EndAroundCarry, Fold16;
    var e := EndAroundCarry(s);
    FoldOnce(e + w);
    var k := s / 0xFFFF - e / 0xFFFF;
    assert s == e + k * 0xFFFF;
    ModSame(s + w, e + w, k);
    CarryUnique(EndAroundCarry(s + w), Fold16(e + w));
  }

  /** The folding loop computes the end-around-carry value of the plain sum. */
  lemma {:induction false} FoldIsEndAroundCarry(data: bytes, field: nat, n: nat)
    requires 2 * n <= |data|
    ensures FoldWords(data, field, n) == EndAroundCarry(WordSum(data, field, n))
  {
    hide EndAroundCarry, Fold16;
    if n > 0 {
      FoldIsEndAroundCarry(data, field, n - 1);
      CarryStep(WordSum(data, field, n - 1), Word(data, field, n - 1));
    }
  }

  /** What octet `j` counts: nothing inside `[from, to)`, 256 times as much at an odd offset. */
  function Octet(data: bytes, from: nat, to: nat, j: nat): nat
    requires j < |data|
  {
    if from <= j < to then 0 else if j % 2 == 0 then data[j] as int else 256 * data[j] as int
  }

  /** The octets below `n` that lie outside `[from, to)`. */
  function OctetSum(data: bytes, from: nat, to: nat, n: nat): nat
    requires n <= |data|
  {
    if n == 0 then 0 else OctetSum(data, from, to, n - 1) + Octet(data, from, to, n - 1)
  }

  /** Every octet of the words counts but those of the field; at an odd offset even those do. */
  lemma {:induction false} WordsAreOctets(data: bytes, field: nat, n: nat)
    requires 2 * n <= |data|
    ensures field % 2 == 0 ==> WordSum(data, field, n) == OctetSum(data, field, field + 4, 2 * n)
    ensures field % 2 == 1 ==> WordSum(data, field, n) == OctetSum(data, field, field, 2 * n)
  {
    hide Word, Octet;
    if n > 0 {
      WordsAreOctets(data, field, n - 1);
      assert OctetSum(data, field, field + 4, 2 * n - 1) ==
          OctetSum(data, field, field + 4, 2 * (n - 1)) + Octet(data, field, field + 4, 2 * (n - 1));
      assert OctetSum(data, field, field, 2 * n - 1) ==
          OctetSum(data, field, field, 2 * (n - 1)) + Octet(data, field, field, 2 * (n - 1));
      WordIsOctets(data, field, n - 1);
    }
  }

  lemma WordIsOctets(data: bytes, field: nat, i: nat)
    requires 2 * i + 1 < |data|
    ensures var to := if field % 2 == 0 then field + 4 else field;
      Word(data, field, i) == Octet(data, field, to, 2 * i) + Octet(data, field, to, 2 * i + 1)
  {
    assert (2 * i) % 2 == 0 && (2 * i + 1) % 2 == 1;
  }

  /** On every file: the end-around-carry sum of all octets outside the field, a last one
      without a partner left out, plus the length, unless that leaves 32 bits. A field at an
      odd offset is summed with the rest. */
  lemma ChecksumValue(data: bytes, field: nat)
    ensures var n := 2 * (|data| / 2);
      var sum := if field % 2 == 0 then OctetSum(data, field, field + 4, n) else OctetSum(data, field, field, n);
      var total := EndAroundCarry(sum) + |data|;
      PeChecksum(data, field) == if total < U32 then Ok(total) else Err(ArithmeticOverflow)
  {
    hide FoldWords, WordSum, OctetSum, EndAroundCarry, Fold16;
    var n := |data| / 2;
    assert n * 2 <= |data|;
    FoldIsEndAroundCarry(data, field, n);
    FoldOnce(FoldWords(data, field, n));
    WordsAreOctets(data, field, n);
  }

  lemma ChecksumOfWords(data: bytes, field: nat)
    requires |data| + 0xFFFF < U32
    ensures PeChecksum(data, field) == Ok(EndAroundCarry(WordSum(data, field, |data| / 2)) + |data|)
  {
    hide WordSum, OctetSum, EndAroundCarry, PeChecksum;
    ChecksumValue(data, field);
    WordsAreOctets(data, field, |data| / 2);
  }

  lemma FoldStep(data: bytes, field: nat, k: nat)
    requires 2 * k + 1 < |data|
    ensures var sum := FoldWords(data, field, k) + Word(data, field, k);
      FoldWords(data, field, k + 1) == sum % 0x1_0000 + sum / 0x1_0000
  {
  }

  /** Adds the pairs of one chunk; `word` is the number of words before it. */
  method SumChunk(ghost data: bytes, buf: bytes, at: nat, field: nat, before: nat, ghost word: nat)
    returns (r: Result<(nat, nat)>)
    requires at == 2 * word < U32 && at + |buf| <= |data| && data[at..at + |buf|] == buf
    requires before == FoldWords(data, field, word)
    ensures r.Ok? ==> r.value.1 == at + 2 * (|buf| / 2) < U32 && r.value.0 == FoldWords(data, field, word + |buf| / 2)
    ensures r.Err? ==> r.error == ArithmeticOverflow && |data| / 2 * 2 >= U32
  {
    hide FoldWords, Fold16;
    var checksum, offset := before, at;
    var pairs := |buf| / 2;
    for k := 0 to pairs
      invariant offset == at + 2 * k < U32
      invariant checksum == FoldWords(data, field, word + k)
    {
      var i := 2 * k;
      assert buf[i] == data[at..at + |buf|][i] == data[offset];
      assert buf[i + 1] == data[at..at + |buf|][i + 1] == data[offset + 1];
      var val := if offset == field || offset == field + 2 then 0 else buf[i] as int + 256 * buf[i + 1] as int;
      assert val == Word(data, field, word + k);
      FoldStep(data, field, word + k);
      checksum := checksum + val;
      checksum := checksum % 0x1_0000 + checksum / 0x1_0000;
      if offset + 2 >= U32 {
        return Err(ArithmeticOverflow);
      }
      offset := offset + 2;
    }
    return Ok((checksum, offset));
  }

  /** The checksum as computed: 64 KiB at a time, pair by pair. */
  method PeCalcChecksum(f: File, field: nat) returns (r: Result<nat>)
    requires field + 2 < U32
    modifies f`pos
    ensures r == PeChecksum(f.data, field)
  {
    hide FoldWords, Clip, Fold16;
    var fileLen := f.SeekEnd();
    fileLen := fileLen % U32;
    f.Seek(0);
    var checksum, offset := 0, 0;
    ghost var words := 0;
    NoWords(f.data, field);
    while true
      invariant offset == 2 * words < U32
      invariant f.pos == offset <= |f.data| || f.pos == offset + 1 == |f.data|
      invariant checksum == FoldWords(f.data, field, words)
      decreases |f.data| - f.pos
    {
      ghost var at := f.pos;
      var buf := f.Read(CHUNK);
      Chunk(f.data, at, buf);
      if |buf| == 0 {
        break;
      }
      var sum :- SumChunk(f.data, buf, offset, field, checksum, words);
      checksum, offset := sum.0, sum.1;
      words := words + |buf| / 2;
    }
    assert words == |f.data| / 2;
    checksum := Fold16(checksum);
    r := Add32(checksum, fileLen);
  }

  /** A chunk is empty at the end only; every chunk but the last has an even number of octets. */
  lemma Chunk(data: bytes, at: nat, buf: bytes)
    requires at <= |data| && buf == Clip(data, at, at + CHUNK)
    ensures |buf| == 0 <==> at == |data|
    ensures at + |buf| <= |data| && data[at..at + |buf|] == buf
    ensures |buf| == 2 * (|buf| / 2) || (|buf| == 2 * (|buf| / 2) + 1 && at + |buf| == |data|)
  {
  }

  lemma NoWords(data: bytes, field: nat)
    ensures FoldWords(data, field, 0) == 0
  {
  }

  // ------------------------------------------------------------- recomputing over the field

  /** Files that agree outside an even field have the same checksum. */
  lemma {:induction false} FieldIsNotSummed(d: bytes, e: bytes, field: nat, n: nat)
    requires |d| == |e| && 2 * n <= |d| && field % 2 == 0
    requires forall i :: 0 <= i < |d| && !(field <= i < field + 4) ==> d[i] == e[i]
    ensures FoldWords(d, field, n) == FoldWords(e, field, n)
  {
    hide Fold16, Word;
    if n > 0 {
      FieldIsNotSummed(d, e, field, n - 1);
      SameWord(d, e, field, n - 1);
    }
  }

  lemma SameWord(d: bytes, e: bytes, field: nat, i: nat)
    requires |d| == |e| && 2 * i + 1 < |d| && field % 2 == 0
    requires forall i :: 0 <= i < |d| && !(field <= i < field + 4) ==> d[i] == e[i]
    ensures Word(d, field, i) == Word(e, field, i)
  {
    if 2 * i != field && 2 * i != field + 2 {
      assert d[2 * i] == e[2 * i] && d[2 * i + 1] == e[2 * i + 1];
    }
  }

  /** What the octets of a field at an odd offset add to the plain sum of the first `n` words. */
  function FieldShare(c: bytes, field: nat, n: nat): nat
    requires |c| == 4
  {
    (if 2 * n > field then 256 * c[0] as int else 0)
    + (if 2 * n > field + 2 then c[1] as int + 256 * c[2] as int else 0)
    + (if 2 * n > field + 4 then c[3] as int else 0)
  }

  /** At an odd offset the field is never skipped: its octets are summed like any other. */
  lemma {:induction false} OddFieldIsSummed(d: bytes, e: bytes, field: nat, n: nat)
    requires |d| == |e| && 2 * n <= |d| && field % 2 == 1 && field + 4 <= |d|
    requires forall i :: 0 <= i < |d| && !(field <= i < field + 4) ==> d[i] == e[i]
    requires d[field..field + 4] == Zeros(4)
    ensures WordSum(e, field, n) == WordSum(d, field, n) + FieldShare(e[field..field + 4], field, n)
  {
    if n > 0 {
      OddFieldIsSummed(d, e, field, n - 1);
      var z, c := d[field..field + 4], e[field..field + 4];
      FourOctets(d, field);
      FourOctets(e, field);
      var i := 2 * (n - 1);
      assert i != field && i != field + 2;
      OddWord(d, e, field, n - 1, c);
    }
  }

  lemma FourOctets(s: bytes, at: nat)
    requires at + 4 <= |s|
    ensures var c := s[at..at + 4];
      s[at] == c[0] && s[at + 1] == c[1] && s[at + 2] == c[2] && s[at + 3] == c[3]
  {
  }

  lemma OddWord(d: bytes, e: bytes, field: nat, i: nat, c: bytes)
    requires |d| == |e| && 2 * i + 1 < |d| && field % 2 == 1 && field + 4 <= |d| && |c| == 4
    requires forall i :: 0 <= i < |d| && !(field <= i < field + 4) ==> d[i] == e[i]
    requires d[field] == 0 && d[field + 1] == 0 && d[field + 2] == 0 && d[field + 3] == 0
    requires e[field] == c[0] && e[field + 1] == c[1] && e[field + 2] == c[2] && e[field + 3] == c[3]
    ensures Word(e, field, i) == Word(d, field, i) + FieldShare(c, field, i + 1) - FieldShare(c, field, i)
  {
    if 2 * i + 1 == field {
    } else if 2 * i == field + 1 {
    } else if 2 * i == field + 3 {
    } else {
      assert 2 * i != field && 2 * i != field + 2;
    }
  }

  /** 256 is invertible modulo 65535, with 256 * 256 = 1. */
  lemma TimesByte(x: nat)
    ensures (256 * x) % 0xFFFF == 0 <==> x % 0xFFFF == 0
  {
    var y := 256 * x;
    if y % 0xFFFF == 0 {
      var q := y / 0xFFFF;
      assert y == q * 0xFFFF;
      assert 0x1_0000 * x == 256 * y;
      ModSame(0x1_0000 * x, x, x);
      ModSame(256 * y, 0, 256 * q);
    } else if x % 0xFFFF == 0 {
      var q := x / 0xFFFF;
      ModSame(y, 0, 256 * q);
    }
  }

  /** The octets of a number, read as words one octet out of step, are 256 times it modulo 65535. */
  lemma ShareOfStored(c: nat)
    requires c < U32
    ensures FieldShare(Le32(c), 1, 4) % 0xFFFF == (256 * c) % 0xFFFF
  {
    var b0, b1, b2, b3 := c % 256, c / 256 % 256, c / 0x1_0000 % 256, c / 0x100_0000 % 256;
    assert c / 0x1_0000 == c / 256 / 256 && c / 0x100_0000 == c / 0x1_0000 / 256;
    assert c == b0 + 256 * b1 + 0x1_0000 * b2 + 0x100_0000 * b3;
    var share := 256 * b0 + b1 + 256 * b2 + b3;
    assert 256 * c == share + 0xFFFF * (b1 + 256 * b2 + 0x1_0001 * b3);
    ModSame(256 * c, share, b1 + 256 * b2 + 0x1_0001 * b3);
  }

  lemma SameResidue(a: nat, b: nat)
    ensures (a + b) % 0xFFFF == a % 0xFFFF <==> b % 0xFFFF == 0
  {
    var qa, qb := a / 0xFFFF, b / 0xFFFF;
    var ra, rb := a % 0xFFFF, b % 0xFFFF;
    ModSame(a + b, ra + rb, qa + qb);
  }

  /** What storing octets in an odd field does to the end-around-carry value. */
  lemma OddFieldShifts(d: bytes, e: bytes, field: nat, stored: nat)
    requires |d| == |e| && field % 2 == 1 && field + 8 <= |d| && stored < U32
    requires forall i :: 0 <= i < |d| && !(field <= i < field + 4) ==> d[i] == e[i]
    requires d[field..field + 4] == Zeros(4) && e[field..field + 4] == Le32(stored)
    requires WordSum(d, field, |d| / 2) > 0
    ensures EndAroundCarry(WordSum(e, field, |d| / 2)) == EndAroundCarry(WordSum(d, field, |d| / 2))
      <==> stored % 0xFFFF == 0
  {
    hide Le32, WordSum;
    var n := |d| / 2;
    OddFieldIsSummed(d, e, field, n);
    var s, share := WordSum(d, field, n), FieldShare(Le32(stored), field, n);
    assert share == FieldShare(Le32(stored), 1, 4);
    ShareOfStored(stored);
    TimesByte(stored);
    SameResidue(s, share);
    CarriesAgree(s, s + share);
  }

  /** A checksum stored in a field that held zeros is what recomputation gives, exactly when
      the field's offset is even or the stored value is a multiple of 65535. */
  lemma RecomputeMatches(d: bytes, field: nat)
    requires field + 8 <= |d| && |d| + 0xFFFF < U32
    requires d[field..field + 4] == Zeros(4) && WordSum(d, field, |d| / 2) > 0
    ensures var stored := PeChecksum(d, field).value;
      PeChecksum(d, field).Ok? && stored < U32
      && (PeChecksum(WriteAt(d, field, Le32(stored)), field) == Ok(stored)
          <==> field % 2 == 0 || stored % 0xFFFF == 0)
  {
    hide Le32, WordSum, FoldWords, EndAroundCarry;
    ChecksumOfWords(d, field);
    var stored := PeChecksum(d, field).value;
    var e := WriteAt(d, field, Le32(stored));
    assert |e| == |d| && e[field..field + 4] == Le32(stored);
    assert forall i :: 0 <= i < |d| && !(field <= i < field + 4) ==> d[i] == e[i];
    ChecksumOfWords(e, field);
    if field % 2 == 0 {
      FieldIsNotSummed(d, e, field, |d| / 2);
    } else {
      OddFieldShifts(d, e, field, stored);
    }
  }

  lemma CarriesAgree(a: nat, b: nat)
    requires a > 0 && b > 0
    ensures EndAroundCarry(a) == EndAroundCarry(b) <==> a % 0xFFFF == b % 0xFFFF
  {
  }
}
