/**
 * The host's memory size in whole GiB as the `get_total_memory_gb` commands
 * report it (`src-tauri/src/commands/system.rs` and the older
 * `src-tauri/src/commands.rs`). The byte count from the system-information
 * plugin is a parameter.
 */
module HostMemory {
  /** Bytes in one GiB, 1024 * 1024 * 1024. */
  const GiB: nat := 1073741824

  /**
   * `(bytes / 1024 / 1024 / 1024).round()`: dividing by powers of two is
   * exact, and rounding a non-negative value half away from zero is adding
   * half a GiB before the integer division.
   */
  function RoundedGiB(bytes: nat): nat {
    (bytes + GiB / 2) / GiB
  }

  /** The rounded value is the nearest whole GiB: within half a GiB of the byte count, halves rounding up. */
  lemma RoundedIsNearest(bytes: nat)
    ensures RoundedGiB(bytes) * GiB <= bytes + GiB / 2 < RoundedGiB(bytes) * GiB + GiB
  {
    var q, m := (bytes + GiB / 2) / GiB, (bytes + GiB / 2) % GiB;
    assert bytes + GiB / 2 == q * GiB + m;
  }

  /** No other whole number of GiB is as near: the rounded value is the only one in that window. */
  lemma RoundedIsUnique(bytes: nat, n: nat)
    requires n * GiB <= bytes + GiB / 2 < n * GiB + GiB
    ensures n == RoundedGiB(bytes)
  {
    RoundedIsNearest(bytes);
  }

  /** More memory never rounds to fewer GiB. */
  lemma RoundedMonotone(a: nat, b: nat)
    requires a <= b
    ensures RoundedGiB(a) <= RoundedGiB(b)
  {
    RoundedIsNearest(a);
    RoundedIsNearest(b);
  }

  /**
   * `get_total_memory_gb` of `commands/system.rs`: 15 GiB and more is
   * reported as 16, to allow for memory reserved by an integrated GPU.
   */
  function AdjustedGiB(bytes: nat): (r: nat)
    ensures r != 15 && r <= 16
    ensures RoundedGiB(bytes) < 15 ==> r == RoundedGiB(bytes)
    ensures RoundedGiB(bytes) >= 15 ==> r == 16
  {
    var rounded := RoundedGiB(bytes);
    if rounded >= 15 then 16 else rounded
  }

  /** The reported value never goes down as the memory grows. */
  lemma AdjustedMonotone(a: nat, b: nat)
    requires a <= b
    ensures AdjustedGiB(a) <= AdjustedGiB(b)
  {
    RoundedMonotone(a, b);
  }

  /** Machines of 32 and 64 GiB are reported as 16 GiB, like one of 15 GiB. */
  lemma LargeMachinesReportSixteen()
    ensures AdjustedGiB(32 * GiB) == 16 && AdjustedGiB(64 * GiB) == 16 && AdjustedGiB(15 * GiB) == 16
  {
    RoundedIsUnique(32 * GiB, 32);
    RoundedIsUnique(64 * GiB, 64);
    RoundedIsUnique(15 * GiB, 15);
  }

  /**
   * The older `get_total_memory_gb` of `commands.rs` reports the rounded
   * value with no adjustment: the two commands agree exactly when the
   * rounded value is below 15 or is 16.
   */
  lemma OlderCommandAgrees(bytes: nat)
    ensures AdjustedGiB(bytes) == RoundedGiB(bytes) <==> RoundedGiB(bytes) < 15 || RoundedGiB(bytes) == 16
  {
  }
}
