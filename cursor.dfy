/** The `take` closure that both `parse_from` functions of report.rs
    define over a byte slice and the mutable position `pos` they capture. */
module Cursor {
  import opened Results
  import opened Bytes

  /** Returns the n bytes at pos and the position just past them. Fails,
      leaving the position where it was, when n is 0 or fewer than n bytes
      remain. The position never passes the end of the slice. */
  method Take(bytes: seq<u8>, pos: nat, n: nat) returns (r: Result<seq<u8>>, next: nat)
    requires pos <= |bytes|
    ensures pos <= next <= |bytes|
    ensures r.Success? <==> 0 < n && pos + n <= |bytes|
    ensures r.Success? ==> |r.value| == n && r.value == bytes[pos..pos + n] && next == pos + n
    ensures r.Failure? ==> r.error == QuoteParsingError && next == pos
  {
    next := pos;
    if n > 0 && |bytes| >= pos + n {
      var ret := bytes[pos..pos + n];
      next := pos + n;
      r := Success(ret);
    } else {
      r := Failure(QuoteParsingError);
    }
  }
}
