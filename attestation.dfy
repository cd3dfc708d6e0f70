/** The checks at the end of `AttestationReport::from_cert` that follow the
    certificate and signature verification: the quote's age, its status,
    the decoding of its body, and the binding of the certificate's public
    key to the enclave's report data. */
module Attestation {
  import opened Results
  import opened Bytes
  import opened QuoteStatus
  import SgxQuote

  datatype AttestationReport = AttestationReport(
    freshness: nat,              // whole seconds since the report's timestamp
    sgxQuoteStatus: QuoteStatus,
    sgxQuoteBody: SgxQuote.Quote)

  /** The fields `from_cert` reads from the verified report's JSON.
      None stands for a field that is missing or not a string; the
      timestamp is given already parsed (in nanoseconds since the epoch, UTC),
      the quote body already base64-decoded. */
  datatype ReportFields = ReportFields(
    timestamp: Option<int>,
    isvEnclaveQuoteStatus: Option<string>,
    isvEnclaveQuoteBody: Option<seq<u8>>)

  /** The first octet of an uncompressed elliptic-curve point (section 2.2
      of RFC 5480). */
  const UNCOMPRESSED: u8 := 0x04

  const NANOS_PER_SECOND: nat := 1_000_000_000

  /** The age of the report in whole seconds, from two instants in
      nanoseconds: `(now - ts).num_seconds()` truncates toward zero, and
      `u64::try_from` of it fails when it is negative, that is when the
      timestamp lies a second or more in the future. */
  function QuoteAge(now: int, timestamp: int): (r: Result<nat>)
    ensures r.Success? <==> timestamp - now < NANOS_PER_SECOND
    ensures r.Success? ==> r.value == if timestamp <= now then (now - timestamp) / NANOS_PER_SECOND else 0
    ensures r.Failure? ==> r.error == NegativeAge
  {
    var elapsed := now - timestamp;
    var seconds := if elapsed >= 0 then elapsed / NANOS_PER_SECOND
                   else -((-elapsed) / NANOS_PER_SECOND);
    if seconds < 0 then Failure(NegativeAge) else Success(seconds)
  }

  /** The key binding check: the certificate's public key must be in
      uncompressed form, and the point that follows the form octet must be
      the quote's report data. An empty key makes the source index out of
      bounds. */
  function CheckKeyBinding(rawPubKey: seq<u8>, reportData: Bytes64): (r: Result<()>)
    ensures r.Success? <==> rawPubKey == [UNCOMPRESSED] + reportData
    ensures rawPubKey == [] <==> r == Failure(KeyIndexOutOfBounds)
    ensures r.Failure? && rawPubKey != [] ==> r.error == ReportError
  {
    if |rawPubKey| == 0 then Failure(KeyIndexOutOfBounds)
    else
      var isUncompressed := rawPubKey[0] == UNCOMPRESSED;
      var pubK := rawPubKey[1..];
      if !isUncompressed || pubK != reportData then Failure(ReportError)
      else
        assert rawPubKey == [rawPubKey[0]] + pubK;
        Success(())
  }

  /** The part of `from_cert` after the certificate checks, in its order:
      freshness, status, quote body, key binding. */
  function CheckReport(fields: ReportFields, now: int, rawPubKey: seq<u8>): Result<AttestationReport>
  {
    if fields.timestamp.None? then Failure(ReportError)
    else
      var freshness :- QuoteAge(now, fields.timestamp.value);
      if fields.isvEnclaveQuoteStatus.None? then Failure(ReportError)
      else
        var status := FromStatusString(fields.isvEnclaveQuoteStatus.value);
        if fields.isvEnclaveQuoteBody.None? then Failure(ReportError)
        else
          var quote :- SgxQuote.DecodeQuote(fields.isvEnclaveQuoteBody.value);
          var _ :- CheckKeyBinding(rawPubKey, quote.isvEnclaveReport.reportData);
          Success(AttestationReport(freshness, status, quote))
  }

  /** A report is accepted exactly when its fields are all present, its
      timestamp is less than a second in the future, its quote decodes, and the public key
      is the uncompressed form of the quote's report data; the accepted
      report carries the age, the recognised status and the decoded quote. */
  lemma CheckReportAccepts(fields: ReportFields, now: int, rawPubKey: seq<u8>)
    ensures CheckReport(fields, now, rawPubKey).Success? <==>
      && fields.timestamp.Some? && fields.timestamp.value - now < NANOS_PER_SECOND
      && fields.isvEnclaveQuoteStatus.Some?
      && fields.isvEnclaveQuoteBody.Some?
      && SgxQuote.DecodeQuote(fields.isvEnclaveQuoteBody.value).Success?
      && rawPubKey == [UNCOMPRESSED]
           + SgxQuote.DecodeQuote(fields.isvEnclaveQuoteBody.value).value.isvEnclaveReport.reportData
    ensures CheckReport(fields, now, rawPubKey).Success? ==>
      var rep := CheckReport(fields, now, rawPubKey).value;
      && QuoteAge(now, fields.timestamp.value) == Success(rep.freshness)
      && rep.sgxQuoteStatus == FromStatusString(fields.isvEnclaveQuoteStatus.value)
      && SgxQuote.DecodeQuote(fields.isvEnclaveQuoteBody.value) == Success(rep.sgxQuoteBody)
  {
  }

  /** An accepted report's key is a 65-byte uncompressed point: compressed
      keys (first octet 0x02 or 0x03) are always rejected. */
  lemma AcceptedKeyIsUncompressed(fields: ReportFields, now: int, rawPubKey: seq<u8>)
    requires CheckReport(fields, now, rawPubKey).Success?
    ensures |rawPubKey| == 65 && rawPubKey[0] == UNCOMPRESSED
  {
  }
}
