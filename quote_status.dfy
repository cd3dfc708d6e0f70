/** `SgxQuoteStatus` and its conversion from the `isvEnclaveQuoteStatus`
    string of an attestation report. */
module QuoteStatus {
  import opened Results

  datatype QuoteStatus = OK | GroupOutOfDate | ConfigurationNeeded | UnknownBadStatus

  /** `SgxQuoteStatus::from(&str)`: total; only the three exact spellings
      are recognised, everything else is an unknown, bad status. */
  function FromStatusString(status: string): (st: QuoteStatus)
    ensures st == OK <==> status == "OK"
    ensures st == GroupOutOfDate <==> status == "GROUP_OUT_OF_DATE"
    ensures st == ConfigurationNeeded <==> status == "CONFIGURATION_NEEDED"
  {
    match status
    case "OK" => OK
    case "GROUP_OUT_OF_DATE" => GroupOutOfDate
    case "CONFIGURATION_NEEDED" => ConfigurationNeeded
    case _ => UnknownBadStatus
  }

  /** The spelling that stands for a status; the catch-all status has none. */
  function StatusString(st: QuoteStatus): Option<string>
  {
    match st
    case OK => Some("OK")
    case GroupOutOfDate => Some("GROUP_OUT_OF_DATE")
    case ConfigurationNeeded => Some("CONFIGURATION_NEEDED")
    case UnknownBadStatus => None
  }

  /** Every recognised status is read back from its spelling, and every
      string that is recognised is that spelling. */
  lemma StatusStringRoundTrip(st: QuoteStatus, s: string)
    ensures StatusString(st).Some? ==> FromStatusString(StatusString(st).value) == st
    ensures FromStatusString(s) != UnknownBadStatus ==> StatusString(FromStatusString(s)) == Some(s)
    ensures FromStatusString(s) == UnknownBadStatus <==> s !in {"OK", "GROUP_OUT_OF_DATE", "CONFIGURATION_NEEDED"}
  {
  }
}
