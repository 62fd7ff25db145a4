# Authenticode signing and verification, modelled and proved

This Dafny project models the core of `rsigncode`, a Rust implementation of Microsoft
Authenticode signing for Windows PE files, and proves what that core promises:

- the **content fix-up** of a PKCS#7 signature between the generic form of RFC 5652 (OCTET STRING
  wrapper, SignedData version 3) and the native Authenticode form (no wrapper, version 1), which is
  done by splicing DER octets (`DerCodec`, `DerItems`, `Spine`, `ContentRewrite`, `Envelope`,
  `RoundTrip`, `ExtractContent`);
- the **PE engine**: header parsing, the Authenticode digest stream, appending and removing a
  signature with in-place patching, the certificate table, the folding checksum (`Files`,
  `Checksum`, `PeFormat`, `PeLayout`, `PeLaws`, `PeRuns`);
- the **chain walk** to a trusted certificate (`Chain`);
- **timestamp attachment** (`Timestamp`);
- the **verification pipeline**, which ties all of these together (`VerifyPipeline`).

`Bytes` holds octets, outcomes and little-endian fields; `Instances` shows the recurring conditions met by a
smallest image of either word size and a smallest signature, and holds the image whose checksum does not recompute.
`dafny verify dfyconfig.toml` checks everything.

## How the model reads

Code that loops over buffers, files or attribute lists is a method, proved against a
specification function; the promises are lemmas about those functions. A file is an object with its
octets and a cursor, a hasher is the octets it absorbed, and the writers patch the output object in
place. A 32-bit or pointer-size cast truncates explicitly; a 32-bit *sum* that does not fit and a
slice whose end precedes its start are aborts, and appear as the errors `ArithmeticOverflow` and
`SliceOutOfRange`.

Hash functions, the generic CMS parser, the decoder of SpcIndirectDataContent, signature
verification and encodings of CMS values are parameters: any function of their octets. The chain
walk works over any relation "is signed by" on certificate octets.

Recurring conditions:

- `Spine.WellNested`: every TLV on the way down to the content ends inside its parent. The reader
  checks a child against the whole buffer only, so this is not automatic.
- `Envelope.Canonical`: the five container headers on that way are minimal and nothing follows the
  outermost SEQUENCE. The reader accepts more, and a rewrite prints minimal lengths.
- sizes below 2^32 where something printed is read back: the reader takes at most four length octets.
- `PeLayout.WellPlaced`: the parser accepts the file, it is shorter than 2^32 octets, and an existing
  signature starts behind the headers the parser demands. Unsigned files always satisfy the last.
- `VerifyPipeline.Genuine`: a signature as a signer builds it, around one content SEQUENCE, which the CMS parser
  reads back.
- `PeLaws.Fits`: the file to be written, plus the carry of its checksum, stays below 2^32.

Where code and documentation disagree, the model follows the code:

- The envelope check is documented to fail unless the content is unwrapped. A wrapper that reaches
  past eContent can pass (`RoundTrip.OverrunningWrapperPasses`); `Envelope.EnvelopeCheckIsExact`
  says exactly which do, and `Envelope.NestedEnvelopeCheck` that none does inside eContent.
- The checksum is documented to skip its own field. At an odd offset the loop never meets the field,
  and sums it; recomputation then agrees only for multiples of 65535 (`Checksum.RecomputeMatches`),
  and for one signed image does not (`Instances.OddChecksumDoesNotRecompute`).
- The chain walk is documented to accept a terminal certificate that is self-signed *or* trusted; the
  code accepts trusted ones only.
- A comment in the tests of `signing.rs` (lines 675-676) says wrapping leaves the version alone; the
  code sets it to 3.

## Model

| member | source | states |
|---|---|---|
| DerCodec.EncodeLen | crates/rsigncode/src/crypto/signing.rs:442-452 | The octets appended are the minimal definite form: short form below 128, else the count and the big-endian octets without leading zeros. |
| DerCodec.EmitTlv | crates/rsigncode/src/crypto/signing.rs:455-461 | Prints tag, minimal length, content. |
| DerCodec.ReadHeader | crates/rsigncode/src/crypto/signing.rs:466-491 | A header that reads has its content in the buffer and at least two octets further on, so a cursor advances on every input. |
| DerCodec.ReadHeaderAt | crates/rsigncode/src/crypto/signing.rs:466-491 | The accumulating loop computes the big-endian value of the length octets, with the same failures. |
| DerCodec.ReadHeaderLocal | crates/rsigncode/src/crypto/signing.rs:466-491 | A header depends on the octets of its own TLV only, and reads the same wherever that TLV stands. |
| DerCodec.ReadInvertsEmit | crates/rsigncode/src/crypto/signing.rs:442-491 | For every content below 2^32, any tag, offset and suffix, reading undoes printing. |
| DerCodec.LongLengthsAreRejected | crates/rsigncode/src/crypto/signing.rs:477-479 | Contents from 2^32 octets up are printed but never read back. |
| DerCodec.EncodedLengthIsMinimal | crates/rsigncode/src/crypto/signing.rs:442-491 | Length octets the reader accepts are never fewer than the printer's, and as many only if they are the same (section 10.1 of X.690). |
| DerCodec.ChildrenOf | crates/rsigncode/src/crypto/signing.rs:505-514 | The cursor loop collects exactly the TLVs from start until end is reached, or the first failure. |
| DerItems.ChildrenAreItems | crates/rsigncode/src/crypto/signing.rs:503-514 | On a strictly nested range the children are its TLVs in order, with the octets before, in and after each one accounted for. |
| DerItems.SplitFlat | crates/rsigncode/src/crypto/signing.rs:503-514 | A list of TLVs is recovered from its concatenation. |
| DerItems.ChildrenInvertEmit | crates/rsigncode/src/crypto/signing.rs:455-514 | For every list of tag and content pairs, at any offset and before any suffix, the children of the printed list are exactly those pairs. |
| DerItems.SpansPartition | crates/rsigncode/src/crypto/signing.rs:503-514 | Those spans are contiguous, cover the printed range, and hold the contents. |
| Spine.ParseInvertsPrint | crates/rsigncode/src/crypto/signing.rs:564-655 | A ContentInfo tree printed with minimal lengths parses back to the same tree, whatever follows it. |
| ContentRewrite.LocateFindsPath | crates/rsigncode/src/crypto/signing.rs:564-608 | A located path consists of headers that read, in order, with the tags asked for, on every input. |
| ContentRewrite.LocateIsTree | crates/rsigncode/src/crypto/signing.rs:564-608 | On well-nested input the walk succeeds, and the slices it delimits are the siblings, version and body of the strict tree. |
| ContentRewrite.RewriteAuthenticodeContent | crates/rsigncode/src/crypto/signing.rs:561-655 | The bottom-up buffer splice, on every input: error, early return, abort or rebuilt octets, as specified. |
| ContentRewrite.RewriteIsTreeEdit | crates/rsigncode/src/crypto/signing.rs:561-655 | On well-nested input the splice never fails, and gives the input if already in form, else the print of the edited tree. |
| ContentRewrite.RewriteRefinesTreeEdit | crates/rsigncode/src/crypto/signing.rs:618-655 | Parsing the result gives the input's tree with only version and wrapper edited: every sibling at all levels stays, in order, octet for octet. |
| Envelope.RebuildIsIdentity | crates/rsigncode/src/crypto/signing.rs:618-655 | Rebuilding a located path gives back the input if and only if its five headers are minimal, nothing follows, and version and body are already the new ones. |
| Envelope.EnvelopeCheckIsExact | crates/rsigncode/src/crypto/signing.rs:530-546 | For every input, nested or not: the check passes if and only if the path is found, the version TLV is 02 01 01, and eContent does not start with an OCTET STRING, or, in a canonical nested path, starts with one whose content equals eContent's own content. |
| Envelope.NestedEnvelopeCheck | crates/rsigncode/src/crypto/signing.rs:530-546 | If eContent's first child ends inside eContent, it passes if and only if the path is found, the version is 02 01 01 and eContent does not start with an OCTET STRING. |
| RoundTrip.OverrunningWrapperPasses | crates/rsigncode/src/crypto/signing.rs:536-546 | A concrete wrapped input, its OCTET STRING reaching past eContent, that the check accepts. |
| RoundTrip.CanonicalReprints | crates/rsigncode/src/crypto/signing.rs:606-655 | An input already in form is the print of its tree if and only if it is canonical. |
| RoundTrip.NormalizeUndoesWrap | crates/rsigncode/src/crypto/signing.rs:519-553 | For native version-1 input, normalize after wrap gives it back if and only if it is canonical with one TLV in eContent. |
| RoundTrip.WrapUndoesNormalize | crates/rsigncode/src/crypto/signing.rs:519-553 | For wrapped version-3 input whose payload is a nonempty list of TLVs, wrap after normalize gives it back if and only if it is canonical, eContent is one minimal OCTET STRING, and its payload is one TLV and not an OCTET STRING. |
| RoundTrip.NormalizeSettles | crates/rsigncode/src/crypto/signing.rs:523-546 | What normalize returns passes the check, and is a fixpoint, if and only if the uncovered payload does not start with an OCTET STRING. |
| RoundTrip.PaddingIsIgnored | crates/rsigncode/src/crypto/signing.rs:536-553 | Octets after a native signature leave its wrapped form and its passing the check unchanged. |
| ExtractContent.WalkFindsPayload | crates/rsigncode/src/crypto/signing.rs:337-367 | On well-nested input the read-only walk returns the content of the OCTET STRING, or the native TLV, of the strict tree. |
| ExtractContent.EveryEnvelopeYieldsTheContent | crates/rsigncode/src/crypto/signing.rs:316-367 | Bare, wrapped and native forms of one content, the latter two padded or not, all yield exactly its octets. |
| ExtractContent.OtherEnvelopesAreRefused | crates/rsigncode/src/crypto/signing.rs:316-332 | What is no SEQUENCE, or a SEQUENCE of TLVs leading with neither a SEQUENCE nor an OBJECT IDENTIFIER, is refused. |
| ExtractContent.RewriteKeepsContent | crates/rsigncode/src/crypto/signing.rs:316-367 | Wrapping never changes the extracted content; normalizing keeps it if and only if the payload is one TLV that is not an OCTET STRING. |
| ExtractContent.SignedOctetsAreStable | crates/rsigncode/src/crypto/signing.rs:149-165 | Stripping tag and length from what is extracted gives the same digested octets from the bare, wrapped and native forms, padded or not. |
| ExtractContent.SequenceValueIsExact | crates/rsigncode/src/crypto/signing.rs:495-501 | On every input the digested octets are the value of the SEQUENCE that some prefix is, and there are none when no prefix is one. |
| Files.HashRange | crates/rsigncode/src/format/pe.rs:346-363 | The chunked loop absorbs exactly the part of the range that lies in the file. |
| Files.CopyRange | crates/rsigncode/src/format/pe.rs:365-383 | The chunked loop writes exactly that part at the same offset of the other file. |
| Checksum.PeCalcChecksum | crates/rsigncode/src/format/pe.rs:313-342 | The chunked loop computes the folded word sum plus length, or aborts on 32-bit overflow; `ChecksumValue` says which octets that sums. |
| Checksum.FoldIsEndAroundCarry | crates/rsigncode/src/format/pe.rs:328-339 | The accumulator, at most 0xFFFF, is the end-around-carry value of the plain sum of the words: congruent modulo 65535 and zero only for zero. |
| Checksum.WordsAreOctets | crates/rsigncode/src/format/pe.rs:328-339 | For an even field the words summed are exactly all octets outside its four; for an odd one no octet is left out. |
| Checksum.ChecksumValue | crates/rsigncode/src/format/pe.rs:309-342 | On every file: the checksum is the end-around-carry value of all octets outside the field, those at odd offsets times 256, a last unpaired one left out, plus the length, or an abort if that needs more than 32 bits. A field at an odd offset is summed with the rest. |
| Checksum.RecomputeMatches | crates/rsigncode/src/format/pe.rs:309-342 | A checksum stored over zeros is what recomputing gives if and only if the field's offset is even or the value is a multiple of 65535. |
| PeFormat.ParsePeFile | crates/rsigncode/src/format/pe.rs:36-117 | Seeking and reading computes the parse of the file's octets; `ParseIsExact` says what that is. |
| PeLayout.ParseIsExact | crates/rsigncode/src/format/pe.rs:36-117 | On every sequence of octets, in terms of the octets alone: acceptance if and only if the two headers are there, with the directory count at the offset of the word size, and no sum overflows; the info found; a non-trailing entry ignored; rejection or abort otherwise, never a read past the end. |
| Instances.SmallestPlusImageIsWellPlaced | crates/rsigncode/src/format/pe.rs:73-98 | A 64-bit image, with zeros where a 32-bit one has its directory count, is accepted with its own offsets. |
| PeLayout.ParsedOffsets | crates/rsigncode/src/format/pe.rs:50-116 | Offsets of an accepted file: fields where the headers put them, and a signature, if any, ending at the end of the file. |
| PeLayout.ParseOfLayout | crates/rsigncode/src/format/pe.rs:36-117 | Replacing checksum, directory entry and everything after the data re-parses to the same headers and to the new entry. |
| PeFormat.AuthenticodeDigest | crates/rsigncode/src/format/pe.rs:127-156 | Absorbs the three covered regions and the alignment zeros. |
| PeLaws.DigestCoverage | crates/rsigncode/src/format/pe.rs:119-156 | Two files with the same header info have the same stream if and only if they agree on every octet outside the two fields and the signature. |
| PeLaws.StreamsTellPartsApart | crates/rsigncode/src/format/pe.rs:119-156 | Any two well-placed files, whatever their headers, lengths and signatures, have the same stream if and only if their padded parts are equal; equal streams mean equal header offset and word size. |
| PeFormat.WriteSignedPeTo | crates/rsigncode/src/format/pe.rs:215-266 | Copying, zeroing, padding, appending and patching in place leaves the specified image over whatever the output held. |
| PeFormat.WriteSignedPe | crates/rsigncode/src/format/pe.rs:199-212 | Onto a truncated output it leaves the signed image. |
| PeLayout.LeftoverIsSigned | crates/rsigncode/src/format/pe.rs:215-266 | Over an output that is not truncated, what it held beyond the copied data becomes part of the signed file, before the signature and under the digest. |
| PeFormat.WriteUnsignedPeTo | crates/rsigncode/src/format/pe.rs:284-307 | Leaves the specified image over whatever the output held, and fails on an unsigned input. |
| PeFormat.WriteUnsignedPe | crates/rsigncode/src/format/pe.rs:269-281 | Onto a truncated output it leaves the unsigned image. |
| PeLaws.SignedFile | crates/rsigncode/src/format/pe.rs:215-266 | Closed form of a signed file: the input's parts, padded, with checksum, directory entry and one certificate entry; it re-parses to the predicted position, length and size. |
| PeLaws.SigningKeepsDigest | crates/rsigncode/src/format/pe.rs:127-156 | Re-parsing a signed file, whether its input was signed or aligned or not, and streaming it gives the input's digest stream. |
| PeLaws.RemovingKeepsDigest | crates/rsigncode/src/format/pe.rs:284-307 | Removing a signature gives an unsigned file with the same parts and the same digest stream. |
| PeLaws.LastSignatureWins | crates/rsigncode/src/format/pe.rs:215-266 | Signing with s1 and then s2 gives, octet for octet, the file signed with s2 alone. |
| PeLaws.RemoveThenSign | crates/rsigncode/src/format/pe.rs:215-307 | Signing, removing and signing with s2 gives the file signed with s2 alone. |
| PeFormat.ExtractSignatureFrom | crates/rsigncode/src/format/pe.rs:161-191 | The table walk with its seeks, reads and error cases; it terminates on every file. |
| PeLaws.ExtractFindsFirst | crates/rsigncode/src/format/pe.rs:161-191 | Over any table of 8-aligned entries, whatever they are padded with, it returns the payload of the first revision-2.0 PKCS entry, or none when there is none. |
| PeLaws.ExtractIsExact | crates/rsigncode/src/format/pe.rs:161-191 | Every table is entries of other kinds and a rest; the rest decides exactly: payload, none, malformed length, truncation or a position that leaves 32 bits. |
| PeLaws.ExtractAfterSign | crates/rsigncode/src/format/pe.rs:161-257 | Extracting from a signed file gives the signature and then only its zero padding to eight octets. |
| PeLaws.ReembedReproduces | crates/rsigncode/src/format/pe.rs:161-266 | Re-embedding the extracted octets reproduces the signed file: padding never accumulates. |
| PeLaws.SignedChecksumRecomputes | crates/rsigncode/src/format/pe.rs:259-262 | The checksum stored in a signed file recomputes if and only if the header offset is even or the stored value is a multiple of 65535. |
| PeLaws.UnsignedChecksumRecomputes | crates/rsigncode/src/format/pe.rs:300-303 | The same for the checksum stored when a signature is removed. |
| Instances.OddChecksumDoesNotRecompute | crates/rsigncode/src/format/pe.rs:259-342 | A concrete image with an odd header offset: signing stores 51423, recomputing gives another value. |
| PeRuns.RunsKeepTheFile | crates/rsigncode/src/format/pe.rs:215-307 | Over every sequence of signings and removals: it fails only at removing a missing signature; otherwise digest stream and headers are the original's, and a last signing gives the original signed with it alone. |
| Chain.FindIssuerIn | crates/rsigncode/src/crypto/chain.rs:94-104 | The early-return loop finds the first candidate that verifies the certificate. |
| Chain.VerifyChainToCa | crates/rsigncode/src/crypto/chain.rs:45-87 | The loop with its visited set and depth limit computes the greedy walk. |
| Chain.ChainSoundness | crates/rsigncode/src/crypto/chain.rs:45-104 | Acceptance comes with a path of at most 19 links and pairwise distinct certificates from the signer to a trusted one, every issuer drawn from bag or authorities. |
| Chain.WalkIsGreedy | crates/rsigncode/src/crypto/chain.rs:45-104 | For every relation and all candidates: acceptance if and only if the path of first verifying candidates, through certificates that do not verify themselves, reaches a trusted one in at most 19 links. |
| Chain.ChainIsExact | crates/rsigncode/src/crypto/chain.rs:50-86 | If the signer and each candidate have at most one verifying candidate up to octets: acceptance if and only if the signer is a candidate or does not verify itself, and some trusted certificate is reachable in at most 19 links. |
| Chain.MoreAuthoritiesNeverReject | crates/rsigncode/src/crypto/chain.rs:50-104 | Appending authorities never turns acceptance into rejection, with no uniqueness assumed. |
| Chain.MoreBagSameVerdict | crates/rsigncode/src/crypto/chain.rs:50-104 | A larger bag leaves the verdict alone if what is added issues, of the signer and the candidates, nothing the bag does not issue already. |
| Chain.MoreBagNeverRejects | crates/rsigncode/src/crypto/chain.rs:50-104 | A larger bag never rejects if issuers are unique over signer and all candidates. |
| Chain.MoreBagCanReject | crates/rsigncode/src/crypto/chain.rs:50-104 | Otherwise it can: a relation on three certificates shows it. |
| Timestamp.SignedData.PushUnsignedAttribute | crates/rsigncode/src/crypto/timestamp.rs:228-244 | The first signer gains the attribute at the end of its list; without signers nothing changes and it fails. |
| Timestamp.SignedData.AttachRfc3161 | crates/rsigncode/src/crypto/timestamp.rs:163-179 | Pushes the encoded token under the RFC 3161 identifier. |
| Timestamp.SignedData.AttachAuthenticode | crates/rsigncode/src/crypto/timestamp.rs:191-225 | The certificate loop and the push, in place, leave the state and outcome of `Attach`, on failure too; `StampsOnlyAdd` and `FailedAttachment` say what these are. |
| Timestamp.StampsOnlyAdd | crates/rsigncode/src/crypto/timestamp.rs:163-244 | Over every sequence of attachments: failure exactly at a legacy response that is no TSTInfo and has no signer. Otherwise the first signer gains one attribute each, in order: for a requested token or a TSTInfo response the whole token under the RFC 3161 identifier and no certificate, for any other response its first signer as counter-signature and the missing ones of its certificates. The original certificates stay a prefix, none is added twice or from nowhere, all else is unchanged. |
| Timestamp.FailedAttachment | crates/rsigncode/src/crypto/timestamp.rs:191-244 | When an attachment fails, and what it then leaves: everything but the certificate set, which has grown only if the response had a signer. |
| Timestamp.AddedInOrder | crates/rsigncode/src/crypto/timestamp.rs:213-222 | Certificates are added in the order in which they first occur in the response. |
| VerifyPipeline.VerifyDigest | crates/rsigncode/src/crypto/verify.rs:462-476 | True exactly when the content decodes and commits to the hash of this file's digest stream. |
| VerifyPipeline.VerifyCryptoSignature | crates/rsigncode/src/crypto/verify.rs:479-504 | The flag loop is: there is a signer, and every one's message digest over the content SEQUENCE's value and signature verify. |
| VerifyPipeline.VerifyChain | crates/rsigncode/src/crypto/verify.rs:507-516 | The loop over signers computes `ChainOk`; `ChainVerdict` says what that is. |
| VerifyPipeline.ChainVerdict | crates/rsigncode/src/crypto/verify.rs:507-516 | For every relation and all certificates: true if and only if some signer is the first whose certificate is in the bag, and the path of first verifying candidates from that certificate, over bag and then authorities, reaches an authority in at most 19 links. |
| VerifyPipeline.VerifyPeRich | crates/rsigncode/src/crypto/verify.rs:113-162 | The whole pipeline, in order, stopping at the first outright failure; `BlobIsReported`, `AllReported` and `EndToEnd` say what it reports. |
| VerifyPipeline.BlobIsReported | crates/rsigncode/src/crypto/verify.rs:123-158 | Any blob at any index under any options: a result if and only if its envelope passes and its wrapped form parses; then digest, signature, chain, timestamp and leaf-hash flags are each exactly as they must be. |
| VerifyPipeline.SignatureIsReported | crates/rsigncode/src/crypto/verify.rs:123-158 | The same for the embedded form of what a signer built, with any padding: it always has a result, on the content it was built around. |
| VerifyPipeline.AllReported | crates/rsigncode/src/crypto/verify.rs:121-161 | Results if and only if every blob opens; then one for each, at its own index, with every flag as it must be. |
| VerifyPipeline.VerifyPe | crates/rsigncode/src/crypto/verify.rs:101-108 | Succeeds exactly when the pipeline does and every flag of every signature is good; `BasicCheckAccepts` says when that is. |
| VerifyPipeline.PrintedIsSignerOutput | crates/rsigncode/src/crypto/signing.rs:199-218 | Every RFC 5652 signature printed in DER around one content SEQUENCE normalizes to its native print, and so meets the hypothesis of the end-to-end results. |
| VerifyPipeline.BuiltIsRecovered | crates/rsigncode/src/crypto/signing.rs:131-219 | The embedded form of what a signer built is native, holds the same content, and wraps back to the built octets. |
| VerifyPipeline.EndToEnd | crates/rsigncode/src/crypto/verify.rs:113-162 | For any hash and options: on a signed file verification gets past extraction and envelope check, parses exactly what the signer built, and sets every flag of the primary signature by the input's stream and the octets used at signing, and every flag of every nested blob by the same stream; only a nested blob that does not open makes it fail. |
| VerifyPipeline.AcceptsExactly | crates/rsigncode/src/crypto/verify.rs:39-162 | Exact condition, under any options, for all flags of such a file to be good, with arbitrary nested blobs. |
| VerifyPipeline.AcceptsSignatures | crates/rsigncode/src/crypto/verify.rs:39-162 | With nested signatures that signers made: exactly when all of them commit to this file and verify over their own contents, and whatever the options ask for holds. |
| VerifyPipeline.BasicCheckAccepts | crates/rsigncode/src/crypto/verify.rs:39-108 | The same for the basic check: no authority asked for, no bad timestamp allowed. |
| VerifyPipeline.NothingToVerify | crates/rsigncode/src/crypto/verify.rs:113-116 | A file that does not parse gives the parser's error, in an unsigned one nothing is extracted and the error is `NoSignature`. |
| VerifyPipeline.VerdictIgnoresHistory | crates/rsigncode/src/crypto/verify.rs:113-162 | Signings and removals before the last signing do not influence the verdict. |
| VerifyPipeline.TamperingNeedsACollision | crates/rsigncode/src/crypto/verify.rs:462-476 | Two well-placed files, with any headers, lengths and signatures, that both match one signature's digest but differ in their padded parts exhibit a collision of its hash. |

## Left out

- Files as the operating system keeps them: reads are full until the end of the file, and no write fails.
- 32-bit wrap-around: a sum that does not fit aborts, as with overflow checks; a build without them wraps instead.
- Slices and allocations beyond the memory of a process: inputs of the splice stay below 2^62 octets.
- The generic CMS parser and builder, the decoder of SpcIndirectDataContent, hashes, signature verification and X.509 parsing: parameters of the model. That the builder prints canonical DER is the hypothesis `SignerOutput`.
- Re-encoding a timestamped SignedData (`add_timestamps` as a whole), since the encoder is library code.
- Requests to timestamp authorities, retries, base64, PKCS#11, key and certificate files, the command line, printing.
- Collecting nested signatures from unsigned attributes: the list of nested blobs is a parameter.
- Timestamp verification and the leaf-hash check inside the pipeline: parameters; only where their results go is modelled.
- Names, times, serial numbers and other descriptive fields of a verification result.
- Certificate dates, revocation and the rest of path validation, which the chain walk does not do.
- Error texts: an error is one constructor per kind.
