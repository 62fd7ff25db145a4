/** Octets, the outcome type shared by all modules, and little-endian fields. */
module Bytes {

  type byte = b: int | 0 <= b < 256
  type bytes = seq<byte>

  const U32: nat := 0x1_0000_0000
  /** One more than the largest `usize` of a 64-bit build. */
  const USIZE: nat := 0x1_0000_0000_0000_0000
  /** Buffers stay below this, so that one rebuilt from another still is a Rust slice
      (at most `isize::MAX` octets). */
  const SLICE_LIMIT: nat := 0x4000_0000_0000_0000

  /** Certificates and object identifiers are told apart by their octets. */
  type Cert = bytes
  type Oid = bytes

  ghost predicate Distinct<T>(s: seq<T>) {
    forall i, j :: 0 <= i < j < |s| ==> s[i] != s[j]
  }

  datatype Option<+T> = None | Some(value: T)

  /** The ways the modelled code can fail. The last two are not `Err` values of the
      program but aborts: a slice whose end precedes its start, and a 32-bit sum that
      does not fit. */
  datatype Error =
    | TruncatedHeader
    | UnsupportedLength
    | LengthExceedsBuffer
    | NotASequence
    | MissingContent
    | MissingSignedData
    | MissingVersion
    | MissingEncapContentInfo
    | MissingEContent
    | EmptyEContent
    | UnknownEnvelope
    | EnvelopeRejected
    | InvalidPe
    | UnexpectedEof
    | NoSignature
    | CmsParse
    | VerificationFailed
    | NoSigner
    | SliceOutOfRange
    | ArithmeticOverflow

  datatype Result<+T> = Ok(value: T) | Err(error: Error) {
    predicate IsFailure() {
      Err?
    }

    function PropagateFailure<U>(): Result<U>
      requires Err?
    {
      Err(error)
    }

    function Extract(): T
      requires Ok?
    {
      value
    }
  }

  function Zeros(n: nat): (z: bytes)
    ensures |z| == n && forall i :: 0 <= i < n ==> z[i] == 0
  {
    seq(n, _ => 0)
  }

  /** Little-endian encoding of a 16-bit field; `to_le_bytes` of a `u16`. */
  function Le16(n: nat): (r: bytes)
    ensures |r| == 2
  {
    [n % 256, n / 256 % 256]
  }

  /** Little-endian encoding of a 32-bit field; `to_le_bytes` of a `u32`. */
  function Le32(n: nat): (r: bytes)
    ensures |r| == 4
  {
    [n % 256, n / 256 % 256, n / 0x1_0000 % 256, n / 0x100_0000 % 256]
  }

  function Read16(s: bytes, at: nat): Result<nat> {
    if at + 2 > |s| then Err(UnexpectedEof) else Ok(s[at] as int + 256 * s[at + 1] as int)
  }

  function Read32(s: bytes, at: nat): Result<nat> {
    if at + 4 > |s| then Err(UnexpectedEof)
    else Ok(s[at] as int + 256 * s[at + 1] as int + 0x1_0000 * s[at + 2] as int + 0x100_0000 * s[at + 3] as int)
  }

  /** A sum of two `u32` values, which aborts when it does not fit. */
  function Add32(a: nat, b: nat): Result<nat> {
    if a + b < U32 then Ok(a + b) else Err(ArithmeticOverflow)
  }

  lemma Middle(pre: bytes, mid: bytes, post: bytes)
    ensures (pre + mid + post)[|pre|..|pre| + |mid|] == mid
  {
    var s := pre + mid + post;
    assert s[|pre|..|pre| + |mid|] == mid;
  }

  /** A part of a slice, as a slice of the whole. */
  lemma SliceOfSlice(s: bytes, lo: nat, hi: nat, a: nat, b: nat)
    requires lo <= hi <= |s| && a <= b <= hi - lo
    ensures s[lo..hi][a..b] == s[lo + a..lo + b]
  {
    var t := s[lo..hi];
    assert forall i :: a <= i < b ==> t[i] == s[lo + i];
    assert t[a..b] == s[lo + a..lo + b];
  }

  lemma Le32Reads(pre: bytes, n: nat, post: bytes)
    requires n < U32
    ensures Read32(pre + Le32(n) + post, |pre|) == Ok(n)
  {
    var s := pre + Le32(n) + post;
    assert s[|pre|] == n % 256;
    assert s[|pre| + 1] == n / 256 % 256;
    assert s[|pre| + 2] == n / 0x1_0000 % 256;
    assert s[|pre| + 3] == n / 0x100_0000 % 256;
    assert n / 0x1_0000 == n / 256 / 256;
    assert n / 0x100_0000 == n / 0x1_0000 / 256;
    assert n / 0x100_0000 < 256;
  }

  /** A field is read from the octets at its own offset and from nothing else. */
  lemma Read32Local(s: bytes, t: bytes, at: nat)
    requires at + 4 <= |s| && at + 4 <= |t|
    requires s[at..at + 4] == t[at..at + 4]
    ensures Read32(s, at) == Read32(t, at)
  {
    var u := s[at..at + 4];
    assert s[at] == u[0] == t[at] && s[at + 1] == u[1] == t[at + 1];
    assert s[at + 2] == u[2] == t[at + 2] && s[at + 3] == u[3] == t[at + 3];
  }

  lemma Read16Local(s: bytes, t: bytes, at: nat)
    requires at + 2 <= |s| && at + 2 <= |t|
    requires s[at..at + 2] == t[at..at + 2]
    ensures Read16(s, at) == Read16(t, at)
  {
    var u := s[at..at + 2];
    assert s[at] == u[0] == t[at] && s[at + 1] == u[1] == t[at + 1];
  }
}
