# SGX attestation report decoder

This project models the decoder of Intel SGX attestation evidence in
`attestation/src/report.rs`: the 384-byte enclave report body
(`SgxEnclaveReport::parse_from`), the 432-byte quote made of a 48-byte header
and that report (`SgxQuote::parse_from`), the bounds-checked `take` cursor
both parsers use, the mapping of the attestation service's status string to
`SgxQuoteStatus`, and the checks that close `AttestationReport::from_cert`:
the report's age, and the binding of the certificate's public key to the
enclave's `report_data`.

Modules, one per component:

- `Results`: the error values and the `Result`/`Option` wrappers (`?` becomes `:-`).
- `Bytes`: `u8`/`u16`/`u32` as newtypes, the fixed-size arrays `[u8; N]` as
  subset types, and little-endian decoding (`from_le_bytes`) with its inverse.
- `Cursor`: the `take` closure. The closure captures a mutable `pos`, so it
  becomes a method that takes the position and returns the next one.
- `SgxEnclaveReport`, `SgxQuote`: each has a layout function that reads every
  field at its offset (`ReportAt`, `DecodeQuote`), an encoder that lays the
  fields out again, and a `ParseFrom` method. `ParseFrom` walks the input with
  the cursor, like the source, and is proved equal to the layout function.
- `QuoteStatus`: `SgxQuoteStatus::from`.
- `Attestation`: freshness, status, quote body and key binding, in the order
  `from_cert` checks them.

The parsers are imperative: a cursor position threaded through twelve (or,
for the quote, eight) `take` calls, and a loop that fills the 64-byte
`report_data` array element by element. The status mapping and the key check
are pure functions.

## Model

| member | source | states |
|---|---|---|
| `Cursor.Take` | attestation/src/report.rs:73-81 | `take(n)` (and its copy at lines 187-195) fails iff `n == 0` or fewer than `n` bytes remain, and then leaves the position unchanged; on success it returns exactly `bytes[pos..pos+n]` and advances by exactly `n`; the position never decreases and never passes the end |
| `Bytes.LittleEndian` | attestation/src/report.rs:87 | the value read from `n` little-endian bytes is below `256^n`, so it fits the integer type `from_le_bytes` returns |
| `Bytes.LE16Bytes` | attestation/src/report.rs:108-111 | `u16::from_le_bytes` takes the first byte as the low one: `b0 + 256*b1` |
| `Bytes.LE32Bytes` | attestation/src/report.rs:87 | `u32::from_le_bytes` is `b0 + 2^8*b1 + 2^16*b2 + 2^24*b3` |
| `Bytes.LittleEndianOfEncoding` | attestation/src/report.rs:87 | decoding the `n`-byte little-endian encoding of any `x < 256^n` gives `x` |
| `Bytes.EncodingOfLittleEndian` | attestation/src/report.rs:87 | re-encoding decoded bytes at the same width gives the same bytes: the decoding is injective |
| `Bytes.EncodeLE16OfLE16` | attestation/src/report.rs:108-111 | two bytes are determined by the `u16` they decode to |
| `Bytes.EncodeLE32OfLE32` | attestation/src/report.rs:87 | four bytes are determined by the `u32` they decode to |
| `SgxEnclaveReport.CopyReportData` | attestation/src/report.rs:116-122 | the `report_data` loop fills the 64-byte array with the first 64 bytes of its source, in order; it fails iff the iterator runs dry (fewer than 64 bytes) |
| `SgxEnclaveReport.ParseFrom` | attestation/src/report.rs:71-136 | parsing succeeds iff the input is exactly 384 bytes (16+4+28+16+32+32+32+96+2+2+60+64): shorter input fails in `take`, longer input fails the final `pos == len` check; on success every field is at its layout offset (`cpu_svn` 0..16, `misc_select` LE 16..20, `attributes` 48..64, `mr_enclave` 64..96, `mr_signer` 128..160, `isv_prod_id` LE 256..258, `isv_svn` LE 258..260, `report_data` 320..384) |
| `SgxEnclaveReport.DecodeEncodeReport` | attestation/src/report.rs:83-124 | laying a report out and decoding it gives the same report, whatever the reserved bytes hold |
| `SgxEnclaveReport.EncodeDecodeReport` | attestation/src/report.rs:83-124 | a 384-byte body is its decoded fields laid out around its reserved regions: nothing but the reserved bytes is dropped |
| `SgxEnclaveReport.ReservedIgnored` | attestation/src/report.rs:89-114 | two 384-byte bodies that differ only in the reserved regions 20..48, 96..128, 160..256 and 260..320 decode to the same report |
| `SgxQuote.DecodeVersion` | attestation/src/report.rs:198-225 | version 1 or 2 with type 0/1 gives `V1`/`V2` of `Unlinkable`/`Linkable`, version 3 with type 2/3 gives `V3` of `P256_256`/`P384_384`, and every other (version, type) pair is an error; a decoded version maps back to the pair it came from |
| `SgxQuote.DecodeVersionCode` | attestation/src/report.rs:139-153 | every quote version is decoded from its own header code |
| `SgxQuote.TakeVersion` | attestation/src/report.rs:197-225 | reading the version and type consumes exactly 4 bytes and gives the decoded version, or fails when the input is shorter than 4 bytes or the pair is not a known one |
| `SgxQuote.ParseFrom` | attestation/src/report.rs:185-257 | the cursor-driven parser gives exactly the quote read by the layout: `gid` LE 4..8, `isv_svn_qe` LE 8..10, `isv_svn_pce` LE 10..12, vendor id 12..28, `user_data` 28..48, the enclave report from 48..432, and an error in every other case |
| `SgxQuote.DecodeQuoteSucceeds` | attestation/src/report.rs:185-257 | a quote is accepted iff it is exactly 432 bytes and its version and type are a known pair |
| `SgxQuote.DecodeEncodeQuote` | attestation/src/report.rs:227-246 | laying a quote out and decoding it gives the same quote |
| `SgxQuote.EncodeDecodeQuote` | attestation/src/report.rs:227-246 | an accepted quote is its decoded fields laid out around the reserved bytes of its report |
| `QuoteStatus.FromStatusString` | attestation/src/report.rs:163-171 | total, exact match: `"OK"`, `"GROUP_OUT_OF_DATE"` and `"CONFIGURATION_NEEDED"` give `OK`, `GroupOutOfDate` and `ConfigurationNeeded`, each iff the string is exactly that spelling |
| `QuoteStatus.StatusStringRoundTrip` | attestation/src/report.rs:155-171 | each recognised status is read back from its spelling; a recognised string is that spelling; every other string, including case variants and the empty string, gives `UnknownBadStatus` |
| `Attestation.QuoteAge` | attestation/src/report.rs:320-329 | the age is the elapsed time in whole seconds, truncated toward zero; it is an error iff the timestamp lies one second or more after `now` |
| `Attestation.CheckKeyBinding` | attestation/src/report.rs:349-364 | the key is accepted iff it is the octet `0x04` followed by exactly the 64 bytes of `report_data`; an empty key is the out-of-bounds index, every other rejection is `ReportError` |
| `Attestation.CheckReportAccepts` | attestation/src/report.rs:319-364 | the report is accepted iff timestamp, status and quote body are present, the timestamp is less than a second in the future, the quote decodes, and the key binds its `report_data`; the accepted report holds the age, the status that `from` gives and the decoded quote |
| `Attestation.AcceptedKeyIsUncompressed` | attestation/src/report.rs:351-364 | an accepted key is 65 bytes and starts with `0x04`, so compressed keys (`0x02`, `0x03`) and keys of any other length are rejected |

## Left out

- X.509 decoding with `yasna`, the `serde_json` parsing of the endorsed report, and the `webpki`/`rustls` certificate chain and signature checks (lines 267-317). These are foreign libraries. Their results are inputs to `Attestation.CheckReport`: the JSON fields as options, and the public key bytes.
- `base64::decode` of the quote body (line 345): the model takes the decoded bytes. A decoding error would be one more failure before the quote is parsed.
- The chrono parsing of the timestamp string (line 325) and the wall clock `SystemTime::now` (line 327): both instants are integer parameters in nanoseconds. Overflow of chrono's subtraction is not modelled.
- `SUPPORTED_SIG_ALGS` (lines 39-51): a constant table handed to `webpki` only.
- `Uuid::from_slice` (line 238): modelled as wrapping the 16 bytes unchanged. It cannot fail on exactly 16 bytes.
- `Cursor.Take`: positions are unbounded naturals, so the `usize` overflow of `pos + n` is not modelled. It cannot happen with the constant sizes the parsers ask for.
- `Attestation.CheckKeyBinding`: the source panics when it indexes an empty key. The model returns the error value `KeyIndexOutOfBounds` instead of aborting.
- The repository's declarative CI pipeline description (triggers, jobs, steps) is configuration outside the decoder and is not modelled.
