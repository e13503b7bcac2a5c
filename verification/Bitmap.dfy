/** Allocation bitmaps, true for "in use": the scan and range update that the free map and
    the page pools are built on (Project2/src/lib/kernel/bitmap.c). */
module Bitmap {
  datatype Option<+T> = None | Some(value: T)

  predicate Run(bits: seq<bool>, start: int, cnt: int, value: bool)
  {
    0 <= start && 0 <= cnt && start + cnt <= |bits| && forall i | start <= i < start + cnt :: bits[i] == value
  }

  function SetRun(bits: seq<bool>, start: nat, cnt: nat, value: bool): (r: seq<bool>)
    requires start + cnt <= |bits|
    ensures |r| == |bits|
    ensures forall i | 0 <= i < |bits| :: r[i] == if start <= i < start + cnt then value else bits[i]
  {
    bits[..start] + seq(cnt, _ => value) + bits[start + cnt..]
  }

  /** The first run of cnt clear bits, if there is one. */
  function FirstClear(bits: seq<bool>, cnt: nat): (r: Option<nat>)
    ensures r.Some? ==> Run(bits, r.value, cnt, false)
                        && forall j | 0 <= j < r.value :: !Run(bits, j, cnt, false)
    ensures r.None? ==> forall j :: !Run(bits, j, cnt, false)
  {
    FirstClearFrom(bits, 0, cnt)
  }

  function FirstClearFrom(bits: seq<bool>, from: nat, cnt: nat): (r: Option<nat>)
    ensures r.Some? ==> from <= r.value && Run(bits, r.value, cnt, false)
                        && forall j | from <= j < r.value :: !Run(bits, j, cnt, false)
    ensures r.None? ==> forall j | from <= j :: !Run(bits, j, cnt, false)
    decreases |bits| - from
  {
    if from + cnt > |bits| then None
    else if Run(bits, from, cnt, false) then Some(from)
    else if from == |bits| then None
    else FirstClearFrom(bits, from + 1, cnt)
  }

  /** The scan of bitmap_scan_and_flip, bit group by bit group, followed by the flip. */
  method ScanAndFlip(bits: seq<bool>, cnt: nat) returns (idx: Option<nat>, flipped: seq<bool>)
    ensures idx == FirstClear(bits, cnt)
    ensures flipped == if idx.Some? then SetRun(bits, idx.value, cnt, true) else bits
  {
    idx, flipped := None, bits;
    if cnt <= |bits| {
      var i := 0;
      while i <= |bits| - cnt
        invariant 0 <= i <= |bits| - cnt + 1
        invariant forall j | 0 <= j < i :: !Run(bits, j, cnt, false)
      {
        if Run(bits, i, cnt, false) {
          idx, flipped := Some(i), SetRun(bits, i, cnt, true);
          return;
        }
        i := i + 1;
      }
    }
  }
}
