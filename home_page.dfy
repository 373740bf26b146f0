/**
 * The status badge on the home page's post list: shown only when the front
 * matter carries a truthy status, highlighted for the two critical values.
 */
module HomePage {
  import opened Wrappers

  /** The status values shown as critical. */
  const CriticalStatuses: set<string> := {"KRYTYCZNY", "USZKODZONY"}

  datatype Badge = NoBadge | Normal(text: string) | Critical(text: string)

  /**
   * `status && <span className={status === 'KRYTYCZNY' || status ===
   * 'USZKODZONY' ? critical : normal}>`. An empty string is falsy in
   * JavaScript, so it shows no badge, like a missing status.
   */
  function StatusBadge(status: Option<string>): (b: Badge)
    ensures b.NoBadge? <==> status.None? || status.value == ""
    ensures b.Critical? <==> status.Some? && status.value in CriticalStatuses
    ensures !b.NoBadge? ==> b.text == status.value
  {
    match status
    case None => NoBadge
    case Some(s) =>
      if s == "" then NoBadge
      else if s == "KRYTYCZNY" || s == "USZKODZONY" then Critical(s)
      else Normal(s)
  }

}
