/** The `status` column shared by both request tables. */
module Statuses {

  /** The request lifecycle states. `Other` holds any other text a worker reports: neither
      store checks the status it is given, so the column can hold any string. */
  datatype Status = Pending | Locked | Success | Failed | Timeout | Other(text: string)

  /** `status IN ('success', 'failed', 'timeout')`. */
  predicate IsTerminal(s: Status) {
    s == Success || s == Failed || s == Timeout
  }

  /** A status value whose `Other` text is not one of the lifecycle names, so that every
      column text has exactly one representation. */
  predicate Canonical(s: Status) {
    s.Other? ==> s.text !in {"pending", "locked", "success", "failed", "timeout"}
  }

  /** The column text of a status. */
  function Text(s: Status): string {
    match s
    case Pending => "pending"
    case Locked => "locked"
    case Success => "success"
    case Failed => "failed"
    case Timeout => "timeout"
    case Other(t) => t
  }

  /** Reads a column text; SQL compares status texts for exact equality. */
  function Parse(t: string): (s: Status)
    ensures Canonical(s)
    ensures Text(s) == t
  {
    if t == "pending" then Pending
    else if t == "locked" then Locked
    else if t == "success" then Success
    else if t == "failed" then Failed
    else if t == "timeout" then Timeout
    else Other(t)
  }

  /** Reading back the text of a canonical status gives the status. */
  lemma ParseText(s: Status)
    requires Canonical(s)
    ensures Parse(Text(s)) == s
  {
  }
}
