/**
 * The persisted statistics snapshot (the JSON object the parser writes and
 * the update strategy reads back). Every field is optional, because a
 * snapshot read back from disk may lack any of them; a field whose JSON
 * value has the wrong type is modelled as absent where the source tests
 * its type.
 */
module Snapshots {
  import opened Text

  /** Per-entity counters: number of QSOs, and 1 once any of them is confirmed. */
  datatype Entry = Entry(qso: nat, qsl: nat)

  /** The `dxcc_stats` member: missing (or null), some other non-object value, or an object. */
  datatype DxccStats = Missing | NotAnObject | Entries(entries: map<string, Entry>)

  /** An ISO date string together with the instant `new Date(text)` denotes (None: an invalid date). */
  datatype Stamp = Stamp(text: string, instant: Option<int>)

  /** `incrementalStats`: differences of the three totals across one update. */
  datatype Delta = Delta(newQsos: int, newQsls: int, newDxccs: int)

  datatype Snapshot = Snapshot(
    lastQsoRx: Option<string>,          // app_lotw_lastQsoRx (None: absent or not a string)
    lastQsl: Option<string>,            // app_lotw_lastQsl
    lastUpdated: Option<Stamp>,         // last_updated
    lastUpdatedTimestamp: Option<int>,  // last_updated_timestamp (epoch ms)
    totalQso: Option<int>,
    totalQsl: Option<int>,
    dxccConfirmed: Option<int>,
    dxccStats: DxccStats,
    incremental: Option<Delta>)

  /** `x || 0` for a numeric JSON member. */
  function OrZero(x: Option<int>): int {
    if x.Some? then x.value else 0
  }

  /**
   * `incrementalStats` as both update paths compute it: each total of the new
   * snapshot minus the same total before the update, a missing total counting as 0.
   */
  function DeltaOf(before: Option<Snapshot>, after: Snapshot): (d: Delta)
    ensures before.None? ==> d == Delta(OrZero(after.totalQso), OrZero(after.totalQsl), OrZero(after.dxccConfirmed))
    ensures before.Some? ==> d.newQsos + OrZero(before.value.totalQso) == OrZero(after.totalQso)
    ensures before.Some? ==> d.newQsls + OrZero(before.value.totalQsl) == OrZero(after.totalQsl)
    ensures before.Some? ==> d.newDxccs + OrZero(before.value.dxccConfirmed) == OrZero(after.dxccConfirmed)
  {
    var q := if before.Some? then OrZero(before.value.totalQso) else 0;
    var l := if before.Some? then OrZero(before.value.totalQsl) else 0;
    var c := if before.Some? then OrZero(before.value.dxccConfirmed) else 0;
    Delta(OrZero(after.totalQso) - q, OrZero(after.totalQsl) - l, OrZero(after.dxccConfirmed) - c)
  }
}
