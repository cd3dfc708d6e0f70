/** `SgxQuote`: the 48-byte quote header followed by the 384-byte enclave
    report, and its cursor-driven parser. */
module SgxQuote {
  import opened Results
  import opened Bytes
  import opened Cursor
  import SgxEnclaveReport

  /** Signature type of an EPID quote (versions 1 and 2). */
  datatype EpidQuoteSigType = Unlinkable | Linkable

  /** Attestation key type of an ECDSA quote (version 3). */
  datatype EcdsaQuoteAkType = P256_256 | P384_384

  datatype QuoteVersion =
    | V1(sigType: EpidQuoteSigType)
    | V2(sigType: EpidQuoteSigType)
    | V3(akType: EcdsaQuoteAkType)

  /** The quoting enclave's vendor id; the 16 bytes are kept as they are. */
  datatype Uuid = Uuid(bytes: Bytes16)

  datatype Quote = Quote(
    version: QuoteVersion,
    gid: u32,
    isvSvnQe: u16,
    isvSvnPce: u16,
    qeVendorId: Uuid,
    userData: Bytes20,
    isvEnclaveReport: SgxEnclaveReport.Report)

  const HEADER_SIZE: nat := 48
  const QUOTE_SIZE: nat := HEADER_SIZE + SgxEnclaveReport.REPORT_SIZE

  /** The quote version a (version, type) pair of header fields denotes:
      versions 1 and 2 take an EPID signature type (0 or 1), version 3 an
      ECDSA attestation key type (2 or 3); nothing else is accepted. */
  function DecodeVersion(version: u16, keyType: u16): (r: Result<QuoteVersion>)
    ensures r.Success? <==> (version in {1, 2} && keyType in {0, 1})
                            || (version == 3 && keyType in {2, 3})
    ensures r.Failure? ==> r.error == QuoteParsingError
    ensures r.Success? ==> VersionCode(r.value) == (version, keyType)
  {
    if version == 1 || version == 2 then
      var sigType :- if keyType == 0 then Success(Unlinkable)
                     else if keyType == 1 then Success(Linkable)
                     else Failure(QuoteParsingError);
      Success(if version == 1 then V1(sigType) else V2(sigType))
    else if version == 3 then
      var akType :- if keyType == 2 then Success(P256_256)
                    else if keyType == 3 then Success(P384_384)
                    else Failure(QuoteParsingError);
      Success(V3(akType))
    else
      Failure(QuoteParsingError)
  }

  /** The (version, type) header fields that stand for a quote version. */
  function VersionCode(v: QuoteVersion): (u16, u16)
  {
    match v
    case V1(s) => (1, if s == Unlinkable then 0 else 1)
    case V2(s) => (2, if s == Unlinkable then 0 else 1)
    case V3(a) => (3, if a == P256_256 then 2 else 3)
  }

  /** Every quote version is decoded from its own header fields. */
  lemma DecodeVersionCode(v: QuoteVersion)
    ensures DecodeVersion(VersionCode(v).0, VersionCode(v).1) == Success(v)
  {
  }

  /** The quote as its layout table gives it: the header fields at their
      offsets, the enclave report in bytes 48..432. Any other length, and
      any unknown version or type, is an error. */
  function DecodeQuote(b: seq<u8>): Result<Quote>
  {
    if |b| != QUOTE_SIZE then Failure(QuoteParsingError)
    else
      var version :- DecodeVersion(LE16(b[0..2]), LE16(b[2..4]));
      var report :- SgxEnclaveReport.DecodeReport(b[48..432]);
      Success(Quote(
        version := version,
        gid := LE32(b[4..8]),
        isvSvnQe := LE16(b[8..10]),
        isvSvnPce := LE16(b[10..12]),
        qeVendorId := Uuid(b[12..28]),
        userData := b[28..48],
        isvEnclaveReport := report))
  }

  /** Lays a quote out in bytes, with the given reserved contents of its
      enclave report. */
  function EncodeQuote(q: Quote, res: SgxEnclaveReport.Reserved): (b: seq<u8>)
    ensures |b| == QUOTE_SIZE
  {
    EncodeLE16(VersionCode(q.version).0) + EncodeLE16(VersionCode(q.version).1)
      + EncodeLE32(q.gid) + EncodeLE16(q.isvSvnQe) + EncodeLE16(q.isvSvnPce)
      + q.qeVendorId.bytes + q.userData
      + SgxEnclaveReport.EncodeReport(q.isvEnclaveReport, res)
  }

  /** The first four bytes of `SgxQuote::parse_from`: takes the version
      and, only when the version is known, the signature or attestation key
      type that goes with it. */
  method TakeVersion(bytes: seq<u8>) returns (r: Result<QuoteVersion>, pos: nat)
    ensures pos <= |bytes|
    ensures r.Success? ==>
              4 <= |bytes| && pos == 4 &&
              r == DecodeVersion(LE16(bytes[0..2]), LE16(bytes[2..4]))
    ensures r.Failure? ==>
              r.error == QuoteParsingError &&
              (|bytes| < 4 || DecodeVersion(LE16(bytes[0..2]), LE16(bytes[2..4])).Failure?)
  {
    pos := 0;
    var versionBytes, typeBytes: seq<u8>;
    versionBytes, pos :- Take(bytes, pos, 2);
    var versionNumber := LE16(versionBytes);
    if versionNumber == 1 {
      typeBytes, pos :- Take(bytes, pos, 2);
      var code := LE16(typeBytes);
      var signatureType: EpidQuoteSigType;
      if code == 0 {
        signatureType := Unlinkable;
      } else if code == 1 {
        signatureType := Linkable;
      } else {
        return Failure(QuoteParsingError), pos;
      }
      r := Success(V1(signatureType));
    } else if versionNumber == 2 {
      typeBytes, pos :- Take(bytes, pos, 2);
      var code := LE16(typeBytes);
      var signatureType: EpidQuoteSigType;
      if code == 0 {
        signatureType := Unlinkable;
      } else if code == 1 {
        signatureType := Linkable;
      } else {
        return Failure(QuoteParsingError), pos;
      }
      r := Success(V2(signatureType));
    } else if versionNumber == 3 {
      typeBytes, pos :- Take(bytes, pos, 2);
      var code := LE16(typeBytes);
      var attestationKeyType: EcdsaQuoteAkType;
      if code == 2 {
        attestationKeyType := P256_256;
      } else if code == 3 {
        attestationKeyType := P384_384;
      } else {
        return Failure(QuoteParsingError), pos;
      }
      r := Success(V3(attestationKeyType));
    } else {
      r := Failure(QuoteParsingError);
    }
  }

  /** `SgxQuote::parse_from`: reads the version and type, then the
      remaining header fields, then parses the next 384 bytes as the
      enclave report, and insists that the whole input was consumed. */
  method ParseFrom(bytes: seq<u8>) returns (r: Result<Quote>)
    ensures r == DecodeQuote(bytes)
  {
    var version, pos :- TakeVersion(bytes);
    var gid, isvSvnQe, isvSvnPce, qeVendorIdRaw, userData, reportBytes: seq<u8>;
    gid, pos :- Take(bytes, pos, 4);
    isvSvnQe, pos :- Take(bytes, pos, 2);
    isvSvnPce, pos :- Take(bytes, pos, 2);
    // Uuid::from_slice cannot fail on exactly 16 bytes.
    qeVendorIdRaw, pos :- Take(bytes, pos, 16);
    userData, pos :- Take(bytes, pos, 20);
    reportBytes, pos :- Take(bytes, pos, SgxEnclaveReport.REPORT_SIZE);
    assert reportBytes == bytes[48..432] && pos == QUOTE_SIZE;
    // The 384 bytes just taken always parse, so the source's `?` on the
    // report never propagates an error.
    var report := SgxEnclaveReport.ParseFrom(reportBytes);

    if pos != |bytes| {
      return Failure(QuoteParsingError);
    }
    var quote := Quote(version, LE32(gid), LE16(isvSvnQe), LE16(isvSvnPce),
                       Uuid(qeVendorIdRaw), userData, report.value);
    assert quote == DecodeQuote(bytes).value;
    r := Success(quote);
  }

  /** A quote is accepted exactly when it is 432 bytes long and its header
      names a known version and type. */
  lemma DecodeQuoteSucceeds(b: seq<u8>)
    ensures DecodeQuote(b).Success? <==>
      |b| == QUOTE_SIZE && DecodeVersion(LE16(b[0..2]), LE16(b[2..4])).Success?
  {
  }

  /** Decoding an encoded quote gives it back. */
  lemma DecodeEncodeQuote(q: Quote, res: SgxEnclaveReport.Reserved)
    ensures DecodeQuote(EncodeQuote(q, res)) == Success(q)
  {
    var b := EncodeQuote(q, res);
    var code := VersionCode(q.version);
    assert b[0..2] == EncodeLE16(code.0);
    assert b[2..4] == EncodeLE16(code.1);
    DecodeVersionCode(q.version);
    assert b[4..8] == EncodeLE32(q.gid);
    assert b[8..10] == EncodeLE16(q.isvSvnQe);
    assert b[10..12] == EncodeLE16(q.isvSvnPce);
    assert b[12..28] == q.qeVendorId.bytes;
    assert b[28..48] == q.userData;
    assert b[48..432] == SgxEnclaveReport.EncodeReport(q.isvEnclaveReport, res);
    SgxEnclaveReport.DecodeEncodeReport(q.isvEnclaveReport, res);
  }

  /** An accepted quote is its decoded fields laid out around the reserved
      regions of its report: the decoder loses nothing else. */
  lemma EncodeDecodeQuote(b: seq<u8>)
    requires DecodeQuote(b).Success?
    ensures EncodeQuote(DecodeQuote(b).value, SgxEnclaveReport.ReservedOf(b[48..432])) == b
  {
    var q := DecodeQuote(b).value;
    var code := VersionCode(q.version);
    assert code == (LE16(b[0..2]), LE16(b[2..4]));
    EncodeLE16OfLE16(b[0..2]);
    EncodeLE16OfLE16(b[2..4]);
    EncodeLE32OfLE32(b[4..8]);
    EncodeLE16OfLE16(b[8..10]);
    EncodeLE16OfLE16(b[10..12]);
    SgxEnclaveReport.EncodeDecodeReport(b[48..432]);
    assert b == b[0..2] + b[2..4] + b[4..8] + b[8..10] + b[10..12] + b[12..28]
      + b[28..48] + b[48..432];
  }
}
