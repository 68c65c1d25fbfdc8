/**
 * Synthetic timestamps of the rainfall series.
 *
 * The decoded file carries no usable per-row time, so row `i` is stamped
 * `2000-01-01 00:00 + 5*i minutes`. Instants are modelled as whole minutes
 * counted from that origin.
 */
module Timeline {

  /** Sampling interval of the series, in minutes. */
  const Interval: nat := 5

  /** The origin instant (2000-01-01 00:00), as minutes from itself. */
  const Origin: int := 0

  /** Timestamp of row `i`, in minutes from the origin. */
  function TimeOf(i: nat): (t: int)
    ensures t >= Origin
    ensures (t - Origin) % Interval == 0 && (t - Origin) / Interval == i
  {
    Origin + Interval * i
  }

  /** The timestamp column of an `n`-row series. */
  function Timestamps(n: nat): (ts: seq<int>)
    ensures |ts| == n
    ensures forall i :: 0 <= i < n ==> ts[i] == Origin + Interval * i
    ensures forall i, j :: 0 <= i < j < n ==> ts[j] - ts[i] == Interval * (j - i)
  {
    if n == 0 then [] else Timestamps(n - 1) + [TimeOf(n - 1)]
  }

  /** Entry `i` of the timestamp column is the timestamp of row `i`. */
  lemma StampOfRow(n: nat, i: nat)
    requires i < n
    ensures Timestamps(n)[i] == TimeOf(i)
  {
  }
}
