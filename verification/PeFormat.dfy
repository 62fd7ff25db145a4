/** Parsing, digesting, signing and unsigning a PE file. */
module PeFormat {
  import opened Bytes
  import opened Checksum
  import opened Files

  const DOS_MAGIC: nat := 0x5A4D
  const PE_SIGNATURE: nat := 0x0000_4550
  const PE32_MAGIC: nat := 0x10B
  const PE32PLUS_MAGIC: nat := 0x20B
  const WIN_CERT_REVISION_2_0: nat := 0x0200
  const WIN_CERT_TYPE_PKCS_SIGNED_DATA: nat := 0x0002

  datatype PeInfo = PeInfo(
    pe32plus: bool, headerSize: nat, checksumOffset: nat, certTableOffset: nat,
    sigpos: nat, siglen: nat, fileend: nat)

  // ------------------------------------------------------------------------------ parsing

  datatype Headers = Headers(headerSize: nat, pe32plus: bool)

  function ChecksumOffset(h: Headers): nat {
    h.headerSize + 88
  }

  function CertTableOffset(h: Headers): nat {
    h.headerSize + 152 + (if h.pe32plus then 16 else 0)
  }

  function ParseHeaders(data: bytes): Result<Headers> {
    var filesize := |data| % U32;
    if filesize < 64 then Err(InvalidPe)
    else
      var magic :- Read16(data, 0);
      if magic != DOS_MAGIC then Err(InvalidPe)
      else
        var headerSize :- Read32(data, 0x3C);
        if headerSize < 44 || headerSize > filesize then Err(InvalidPe)
        else
          var needed :- Add32(headerSize, 176);
          if filesize < needed then Err(InvalidPe)
          else
            var peSig :- Read32(data, headerSize);
            if peSig != PE_SIGNATURE then Err(InvalidPe)
            else
              var optMagic :- Read16(data, headerSize + 24);
              if optMagic != PE32PLUS_MAGIC && optMagic != PE32_MAGIC then Err(InvalidPe)
              else
                var pe32plus := optMagic == PE32PLUS_MAGIC;
                var nrvas :- Read32(data, headerSize + 116 + (if pe32plus then 16 else 0));
                if nrvas < 5 then Err(InvalidPe) else Ok(Headers(headerSize, pe32plus))
  }

  /** A directory entry counts only when it points at the end of the file (MS12-024). */
  function TrailingSignature(sigpos: nat, siglen: nat, filesize: nat): Result<(nat, nat)> {
    if sigpos == 0 || siglen == 0 || sigpos >= filesize then Ok((0, 0))
    else
      var end :- Add32(sigpos, siglen);
      if end != filesize then Ok((0, 0)) else Ok((sigpos, siglen))
  }

  function ParsePe(data: bytes): Result<PeInfo> {
    var h :- ParseHeaders(data);
    var sigpos :- Read32(data, CertTableOffset(h));
    var siglen :- Read32(data, CertTableOffset(h) + 4);
    var sig :- TrailingSignature(sigpos, siglen, |data| % U32);
    Ok(PeInfo(h.pe32plus, h.headerSize, ChecksumOffset(h), CertTableOffset(h), sig.0, sig.1, |data| % U32))
  }

  method ParseHeadersOf(f: File) returns (r: Result<Headers>)
    modifies f`pos
    ensures r == ParseHeaders(f.data)
  {
    hide Read16, Read32;
    var filesize := f.SeekEnd();
    filesize := filesize % U32;
    f.Seek(0);
    if filesize < 64 {
      return Err(InvalidPe);
    }
    var magic :- f.ReadU16();
    if magic != DOS_MAGIC {
      return Err(InvalidPe);
    }
    f.Seek(0x3C);
    var headerSize :- f.ReadU32();
    if headerSize < 44 || headerSize > filesize {
      return Err(InvalidPe);
    }
    var needed :- Add32(headerSize, 176);
    if filesize < needed {
      return Err(InvalidPe);
    }
    f.Seek(headerSize);
    var peSig :- f.ReadU32();
    if peSig != PE_SIGNATURE {
      return Err(InvalidPe);
    }
    f.Seek(headerSize + 24);
    var optMagic :- f.ReadU16();
    if optMagic != PE32PLUS_MAGIC && optMagic != PE32_MAGIC {
      return Err(InvalidPe);
    }
    var pe32plus := optMagic == PE32PLUS_MAGIC;
    f.Seek(headerSize + 116 + (if pe32plus then 16 else 0));
    var nrvas :- f.ReadU32();
    if nrvas < 5 {
      return Err(InvalidPe);
    }
    return Ok(Headers(headerSize, pe32plus));
  }

  method ParsePeFile(f: File) returns (r: Result<PeInfo>)
    modifies f`pos
    ensures r == ParsePe(f.data)
  {
    hide Read16, Read32, ParseHeaders;
    var filesize := |f.data| % U32;
    var h :- ParseHeadersOf(f);
    var certTableOffset := h.headerSize + 152 + (if h.pe32plus then 16 else 0);
    f.Seek(certTableOffset);
    var sigpos :- f.ReadU32();
    var siglen :- f.ReadU32();
    if sigpos != 0 || siglen != 0 {
      if sigpos == 0 || siglen == 0 || sigpos >= filesize {
        sigpos, siglen := 0, 0;
      } else {
        var end :- Add32(sigpos, siglen);
        if end != filesize {
          sigpos, siglen := 0, 0;
        }
      }
    }
    return Ok(PeInfo(h.pe32plus, h.headerSize, h.headerSize + 88, certTableOffset, sigpos, siglen, filesize));
  }

  // ------------------------------------------------------------------------------- digest

  /** Zeros up to the next multiple of eight. */
  function Pad8(n: nat): (p: nat)
    ensures p < 8
  {
    (8 - n % 8) % 8
  }

  lemma Pad8Aligns(n: nat)
    ensures (n + Pad8(n)) % 8 == 0 && Pad8(n + Pad8(n)) == 0
  {
  }

  function DataEnd(pe: PeInfo): nat {
    if pe.sigpos > 0 then pe.sigpos else pe.fileend
  }

  /** The octets the Authenticode digest is taken over. */
  function DigestStream(data: bytes, pe: PeInfo): bytes {
    Clip(data, 0, pe.checksumOffset)
    + Clip(data, pe.checksumOffset + 4, pe.certTableOffset)
    + Clip(data, pe.certTableOffset + 8, DataEnd(pe))
    + Zeros(Pad8(DataEnd(pe)))
  }

  method AuthenticodeDigest(f: File, pe: PeInfo, hasher: Hasher)
    modifies f`pos, hasher
    ensures hasher.absorbed == old(hasher.absorbed) + DigestStream(f.data, pe)
  {
    hide Clip;
    var fileend := if pe.sigpos > 0 then pe.sigpos else pe.fileend;
    HashRange(f, hasher, 0, pe.checksumOffset);
    HashRange(f, hasher, pe.checksumOffset + 4, pe.certTableOffset);
    HashRange(f, hasher, pe.certTableOffset + 8, fileend);
    var pad := (8 - fileend % 8) % 8;
    if pad > 0 {
      hasher.Update(Zeros(pad));
    }
  }

  // ------------------------------------------------------------------ signing and unsigning

  /** A WIN_CERTIFICATE: dwLength, wRevision, wCertificateType, the signature, zeros. */
  function CertEntry(der: bytes): bytes {
    Le32((|der| + 8 + Pad8(|der|)) % U32) + Le16(WIN_CERT_REVISION_2_0) + Le16(WIN_CERT_TYPE_PKCS_SIGNED_DATA)
    + der + Zeros(Pad8(|der|))
  }

  /** What an output that held `before` holds after the copy, with both fields zeroed. */
  function StrippedOver(before: bytes, data: bytes, pe: PeInfo): bytes {
    var copied := WriteAt(before, 0, Clip(data, 0, DataEnd(pe)));
    WriteAt(WriteAt(copied, pe.checksumOffset, Zeros(4)), pe.certTableOffset, Zeros(8))
  }

  /** The copied data with the checksum field and the directory entry zeroed. */
  function Stripped(data: bytes, pe: PeInfo): bytes {
    WriteAt(WriteAt(Clip(data, 0, DataEnd(pe)), pe.checksumOffset, Zeros(4)), pe.certTableOffset, Zeros(8))
  }

  /** Padded, with the certificate appended and entered in the directory; not yet summed. */
  function WithCertificate(stripped: bytes, pe: PeInfo, der: bytes): bytes {
    var padded := stripped + Zeros(Pad8(|stripped|));
    var cert := CertEntry(der);
    WriteAt(padded + cert, pe.certTableOffset, Le32(|padded| % U32) + cert[..4])
  }

  function Summed(data: bytes, pe: PeInfo): Result<bytes> {
    var sum :- PeChecksum(data, pe.checksumOffset);
    Ok(WriteAt(data, pe.checksumOffset, Le32(sum)))
  }

  function SignedImage(data: bytes, pe: PeInfo, der: bytes): Result<bytes> {
    Summed(WithCertificate(Stripped(data, pe), pe, der), pe)
  }

  function UnsignedImage(data: bytes, pe: PeInfo): Result<bytes> {
    if pe.sigpos == 0 then Err(NoSignature) else Summed(Stripped(data, pe), pe)
  }

  /** The same onto an output that need not have been empty. */
  function SignedOver(before: bytes, data: bytes, pe: PeInfo, der: bytes): Result<bytes> {
    Summed(WithCertificate(StrippedOver(before, data, pe), pe, der), pe)
  }

  function UnsignedOver(before: bytes, data: bytes, pe: PeInfo): Result<bytes> {
    if pe.sigpos == 0 then Err(NoSignature) else Summed(StrippedOver(before, data, pe), pe)
  }

  /** The writers that open a path truncate it: what they leave are the images. */
  lemma TruncatedOutput(data: bytes, pe: PeInfo, der: bytes)
    ensures SignedOver([], data, pe, der) == SignedImage(data, pe, der)
    ensures UnsignedOver([], data, pe) == UnsignedImage(data, pe)
  {
    hide Summed, WithCertificate;
    assert WriteAt([], 0, Clip(data, 0, DataEnd(pe))) == Clip(data, 0, DataEnd(pe));
  }

  method Strip(input: File, output: File, pe: PeInfo, dataEnd: nat)
    requires input != output && dataEnd == DataEnd(pe)
    modifies input`pos, output
    ensures output.data == StrippedOver(old(output.data), input.data, pe)
  {
    CopyRange(input, output, 0, dataEnd);
    output.Seek(pe.checksumOffset);
    output.WriteAll(Zeros(4));
    output.Seek(pe.certTableOffset);
    output.WriteAll(Zeros(8));
  }

  method WriteChecksum(output: File, pe: PeInfo) returns (r: Result<()>)
    requires pe.checksumOffset + 2 < U32
    modifies output
    ensures r.Ok? <==> Summed(old(output.data), pe).Ok?
    ensures r.Ok? ==> Ok(output.data) == Summed(old(output.data), pe)
    ensures r.Err? ==> r.error == Summed(old(output.data), pe).error
  {
    var checksum :- PeCalcChecksum(output, pe.checksumOffset);
    output.Seek(pe.checksumOffset);
    output.WriteAll(Le32(checksum));
    return Ok(());
  }

  /** Writes the signed file over whatever the output holds, patching it in place. */
  method WriteSignedPeTo(input: File, output: File, pe: PeInfo, der: bytes) returns (r: Result<()>)
    requires input != output && pe.checksumOffset + 2 < U32
    modifies input`pos, output
    ensures r.Ok? <==> SignedOver(old(output.data), input.data, pe, der).Ok?
    ensures r.Ok? ==> Ok(output.data) == SignedOver(old(output.data), input.data, pe, der)
    ensures r.Err? ==> r.error == SignedOver(old(output.data), input.data, pe, der).error
  {
    hide Clip, PeChecksum, Le16, Le32, StrippedOver, Pad8;
    var dataEnd := if pe.sigpos > 0 then pe.sigpos else pe.fileend;
    Strip(input, output, pe, dataEnd);
    ghost var stripped := output.data;

    var end := PadToQuadWord(output);
    ghost var padded := output.data;
    var newSigpos := end % U32;

    var sigPad := Pad8(|der|);
    var totalCertLen := (|der| + 8 + sigPad) % U32;
    AppendCertificate(output, totalCertLen, der, sigPad);
    assert CertEntry(der)[..4] == Le32(totalCertLen);

    output.Seek(pe.certTableOffset);
    output.WriteAll(Le32(newSigpos));
    output.WriteAll(Le32(totalCertLen));
    WriteAtTwice(padded + CertEntry(der), pe.certTableOffset, Le32(newSigpos), Le32(totalCertLen));
    assert output.data == WithCertificate(stripped, pe, der);
    r := WriteChecksum(output, pe);
  }

  method PadToQuadWord(output: File) returns (end: nat)
    modifies output
    ensures output.data == old(output.data) + Zeros(Pad8(|old(output.data)|))
    ensures output.pos == end == |output.data|
  {
    var fileLen := output.SeekEnd();
    var filePad := (8 - fileLen % 8) % 8;
    if filePad > 0 {
      output.WriteAll(Zeros(filePad));
    }
    end := output.pos;
  }

  method AppendCertificate(output: File, totalCertLen: nat, der: bytes, sigPad: nat)
    requires output.pos == |output.data| && sigPad == Pad8(|der|)
    requires totalCertLen == (|der| + 8 + sigPad) % U32
    modifies output
    ensures output.data == old(output.data) + CertEntry(der)
  {
    ghost var was := output.data;
    output.WriteAll(Le32(totalCertLen));
    output.WriteAll(Le16(WIN_CERT_REVISION_2_0));
    output.WriteAll(Le16(WIN_CERT_TYPE_PKCS_SIGNED_DATA));
    assert output.data == was + (Le32(totalCertLen) + Le16(WIN_CERT_REVISION_2_0) +
        Le16(WIN_CERT_TYPE_PKCS_SIGNED_DATA));
    output.WriteAll(der);
    if sigPad > 0 {
      output.WriteAll(Zeros(sigPad));
    }
    assert output.data == was + CertEntry(der);
  }

  method WriteUnsignedPeTo(input: File, output: File, pe: PeInfo) returns (r: Result<()>)
    requires input != output && pe.checksumOffset + 2 < U32
    modifies input`pos, output
    ensures r.Ok? <==> UnsignedOver(old(output.data), input.data, pe).Ok?
    ensures r.Ok? ==> Ok(output.data) == UnsignedOver(old(output.data), input.data, pe)
    ensures r.Err? ==> r.error == UnsignedOver(old(output.data), input.data, pe).error
  {
    if pe.sigpos == 0 {
      return Err(NoSignature);
    }
    Strip(input, output, pe, pe.sigpos);
    r := WriteChecksum(output, pe);
  }

  /** The writers that open a path: a truncated output receives the image. */
  method WriteSignedPe(input: File, pe: PeInfo, der: bytes) returns (r: Result<File>)
    requires pe.checksumOffset + 2 < U32
    modifies input`pos
    ensures r.Ok? <==> SignedImage(input.data, pe, der).Ok?
    ensures r.Ok? ==> fresh(r.value) && Ok(r.value.data) == SignedImage(input.data, pe, der)
  {
    var output := new File([]);
    TruncatedOutput(input.data, pe, der);
    var _ :- WriteSignedPeTo(input, output, pe, der);
    return Ok(output);
  }

  method WriteUnsignedPe(input: File, pe: PeInfo) returns (r: Result<File>)
    requires pe.checksumOffset + 2 < U32
    modifies input`pos
    ensures r.Ok? <==> UnsignedImage(input.data, pe).Ok?
    ensures r.Ok? ==> fresh(r.value) && Ok(r.value.data) == UnsignedImage(input.data, pe)
  {
    var output := new File([]);
    TruncatedOutput(input.data, pe, []);
    var _ :- WriteUnsignedPeTo(input, output, pe);
    return Ok(output);
  }

  // -------------------------------------------------------------------- certificate table

  /** The walk over the certificate table from offset `pos` in it. */
  function WalkTable(data: bytes, pe: PeInfo, pos: nat): Result<Option<bytes>>
    decreases pe.siglen - pos
  {
    if pos >= pe.siglen then Ok(None)
    else
      var at :- Add32(pe.sigpos, pos);
      var len :- Read32(data, at);
      if len < 8 then Err(InvalidPe)
      else
        var revision :- Read16(data, at + 4);
        var certType :- Read16(data, at + 6);
        if revision == WIN_CERT_REVISION_2_0 && certType == WIN_CERT_TYPE_PKCS_SIGNED_DATA then
          if at + len <= |data| then Ok(Some(data[at + 8..at + len])) else Err(UnexpectedEof)
        else
          var aligned :- Add32(len, Pad8(len));
          var next :- Add32(pos, aligned);
          WalkTable(data, pe, next)
  }

  function ExtractSignature(data: bytes, pe: PeInfo): Result<Option<bytes>> {
    if pe.sigpos == 0 || pe.siglen == 0 then Ok(None) else WalkTable(data, pe, 0)
  }

  method ExtractSignatureFrom(f: File, pe: PeInfo) returns (r: Result<Option<bytes>>)
    modifies f`pos
    ensures r == ExtractSignature(f.data, pe)
  {
    hide Read16, Read32;
    if pe.sigpos == 0 || pe.siglen == 0 {
      return Ok(None);
    }
    var pos := 0;
    while pos < pe.siglen
      invariant ExtractSignature(f.data, pe) == WalkTable(f.data, pe, pos)
      decreases pe.siglen - pos
    {
      var at :- Add32(pe.sigpos, pos);
      f.Seek(at);
      var len :- f.ReadU32();
      if len < 8 {
        return Err(InvalidPe);
      }
      var revision :- f.ReadU16();
      var certType :- f.ReadU16();
      if revision == WIN_CERT_REVISION_2_0 && certType == WIN_CERT_TYPE_PKCS_SIGNED_DATA {
        var der :- f.ReadExact(len - 8);
        return Ok(Some(der));
      }
      var aligned :- Add32(len, Pad8(len));
      pos :- Add32(pos, aligned);
    }
    return Ok(None);
  }
}
