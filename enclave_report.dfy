/** `SgxEnclaveReport`: the 384-byte report body that SGX hardware
    produces, and its cursor-driven parser. */
module SgxEnclaveReport {
  import opened Results
  import opened Bytes
  import opened Cursor

  /** The fields the decoder keeps; the four reserved regions are dropped. */
  datatype Report = Report(
    cpuSvn: Bytes16,
    miscSelect: u32,
    attributes: Bytes16,
    mrEnclave: Bytes32,
    mrSigner: Bytes32,
    isvProdId: u16,
    isvSvn: u16,
    reportData: Bytes64)

  /** The four reserved regions, in the order they occur. */
  datatype Reserved = Reserved(r0: Bytes28, r1: Bytes32, r2: Bytes96, r3: Bytes60)

  const REPORT_SIZE: nat := 384

  /** The report as its layout table gives it: each field at its offset from
      the start of the 384-byte report body. */
  function ReportAt(b: seq<u8>): Report
    requires |b| == REPORT_SIZE
  {
    Report(
      cpuSvn := b[0..16],
      miscSelect := LE32(b[16..20]),
      // 20..48 reserved
      attributes := b[48..64],
      mrEnclave := b[64..96],
      // 96..128 reserved
      mrSigner := b[128..160],
      // 160..256 reserved
      isvProdId := LE16(b[256..258]),
      isvSvn := LE16(b[258..260]),
      // 260..320 reserved
      reportData := b[320..384])
  }

  /** Decoding succeeds on exactly 384 bytes and then gives their layout. */
  function DecodeReport(b: seq<u8>): Result<Report>
  {
    if |b| == REPORT_SIZE then Success(ReportAt(b)) else Failure(QuoteParsingError)
  }

  /** The reserved regions of a 384-byte report body. */
  function ReservedOf(b: seq<u8>): Reserved
    requires |b| == REPORT_SIZE
  {
    Reserved(b[20..48], b[96..128], b[160..256], b[260..320])
  }

  /** Whether offset i of a report body lies in a reserved region. */
  predicate InReserved(i: int)
  {
    20 <= i < 48 || 96 <= i < 128 || 160 <= i < 256 || 260 <= i < 320
  }

  /** Lays a report out in bytes, with the given reserved contents. */
  function EncodeReport(rep: Report, res: Reserved): (b: seq<u8>)
    ensures |b| == REPORT_SIZE
  {
    rep.cpuSvn + EncodeLE32(rep.miscSelect) + res.r0 + rep.attributes + rep.mrEnclave
      + res.r1 + rep.mrSigner + res.r2 + EncodeLE16(rep.isvProdId)
      + EncodeLE16(rep.isvSvn) + res.r3 + rep.reportData
  }

  /** The `report_data` loop of `SgxEnclaveReport::parse_from`: fills a
      zeroed 64-byte array element by element from an iterator over src,
      failing if the iterator runs dry first. */
  method CopyReportData(src: seq<u8>) returns (r: Result<Bytes64>)
    ensures r.Success? <==> 64 <= |src|
    ensures r.Success? ==> r.value == src[..64]
    ensures r.Failure? ==> r.error == QuoteParsingError
  {
    var reportData := new u8[64];
    var it := 0;
    for i := 0 to 64
      invariant it == i
      invariant i <= |src|
      invariant reportData[..i] == src[..i]
    {
      if it >= |src| {
        return Failure(QuoteParsingError);
      }
      reportData[i] := src[it];
      it := it + 1;
    }
    r := Success(reportData[..]);
  }

  /** `SgxEnclaveReport::parse_from`: takes the fields one after another
      with the cursor, copies the report data into a 64-byte array, and
      insists that the whole input was consumed. */
  method ParseFrom(bytes: seq<u8>) returns (r: Result<Report>)
    ensures r.Success? <==> |bytes| == REPORT_SIZE
    ensures r.Success? ==> r.value == ReportAt(bytes)
    ensures r.Failure? ==> r.error == QuoteParsingError
  {
    var pos: nat := 0;
    var cpuSvn, miscSelect, reserved, attributes, mrEnclave, mrSigner: seq<u8>;
    var isvProdId, isvSvn, taken: seq<u8>;
    // The conversions of the taken slices to fixed-size arrays cannot fail:
    // Take returns exactly as many bytes as were asked for.
    cpuSvn, pos :- Take(bytes, pos, 16);
    miscSelect, pos :- Take(bytes, pos, 4);
    reserved, pos :- Take(bytes, pos, 28);
    attributes, pos :- Take(bytes, pos, 16);
    mrEnclave, pos :- Take(bytes, pos, 32);
    reserved, pos :- Take(bytes, pos, 32);
    mrSigner, pos :- Take(bytes, pos, 32);
    reserved, pos :- Take(bytes, pos, 96);
    isvProdId, pos :- Take(bytes, pos, 2);
    isvSvn, pos :- Take(bytes, pos, 2);
    reserved, pos :- Take(bytes, pos, 60);
    taken, pos :- Take(bytes, pos, 64);
    assert taken == bytes[320..384] && pos == REPORT_SIZE;

    // The report data always fills: the slice just taken holds 64 bytes, so
    // the source's `?` on the copy never propagates an error.
    var reportData := CopyReportData(taken);
    assert reportData.value == taken[..64] == taken;

    if pos != |bytes| {
      return Failure(QuoteParsingError);
    }
    var report := Report(cpuSvn, LE32(miscSelect), attributes, mrEnclave, mrSigner,
                         LE16(isvProdId), LE16(isvSvn), reportData.value);
    assert report == ReportAt(bytes);
    r := Success(report);
  }

  /** Decoding an encoded report gives it back, whatever the reserved bytes. */
  lemma DecodeEncodeReport(rep: Report, res: Reserved)
    ensures DecodeReport(EncodeReport(rep, res)) == Success(rep)
  {
    var b := EncodeReport(rep, res);
    var misc := EncodeLE32(rep.miscSelect);
    var prod := EncodeLE16(rep.isvProdId);
    var svn := EncodeLE16(rep.isvSvn);
    assert b[0..16] == rep.cpuSvn;
    assert b[16..20] == misc;
    assert b[48..64] == rep.attributes;
    assert b[64..96] == rep.mrEnclave;
    assert b[128..160] == rep.mrSigner;
    assert b[256..258] == prod;
    assert b[258..260] == svn;
    assert b[320..384] == rep.reportData;
  }

  /** A 384-byte body is its decoded fields laid out around its reserved
      regions: the decoder loses nothing but the reserved bytes. */
  lemma EncodeDecodeReport(b: seq<u8>)
    requires |b| == REPORT_SIZE
    ensures DecodeReport(b).Success?
    ensures EncodeReport(DecodeReport(b).value, ReservedOf(b)) == b
  {
    var rep := DecodeReport(b).value;
    EncodeLE32OfLE32(b[16..20]);
    EncodeLE16OfLE16(b[256..258]);
    EncodeLE16OfLE16(b[258..260]);
    assert b == b[0..16] + b[16..20] + b[20..48] + b[48..64] + b[64..96] + b[96..128]
      + b[128..160] + b[160..256] + b[256..258] + b[258..260] + b[260..320] + b[320..384];
  }

  /** The reserved regions are ignored: two bodies that agree outside them
      decode to the same report. */
  lemma ReservedIgnored(b: seq<u8>, c: seq<u8>)
    requires |b| == |c| == REPORT_SIZE
    requires forall i :: 0 <= i < REPORT_SIZE && !InReserved(i) ==> b[i] == c[i]
    ensures DecodeReport(b) == DecodeReport(c)
  {
    assert b[0..16] == c[0..16];
    assert b[16..20] == c[16..20];
    assert b[48..64] == c[48..64];
    assert b[64..96] == c[64..96];
    assert b[128..160] == c[128..160];
    assert b[256..258] == c[256..258];
    assert b[258..260] == c[258..260];
    assert b[320..384] == c[320..384];
  }
}
