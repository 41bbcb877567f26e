// The data loop of `gotData` exactly as written in RFremote.cpp:149-192,
// run against an unbounded command buffer so that a write past
// cmd[CMD_SIZE - 1] can be observed rather than ruled out.  In the 2-byte
// branch (lines 162-167) the cursor is advanced and cmd is written a second
// time before the overflow test at line 179, so entering that branch with
// the cursor at CMD_SIZE - 1 writes cmd[CMD_SIZE].  RFremote.RFrecv.GotData
// is the corrected loop; it returns the same verdict on every input.

module Overrun {
  import opened Timing

  /** The as-written loop resumed at position i with `out` already in
    * cmd[0..|out|): the verdict it reports and every character it writes,
    * in index order (its writes are contiguous from cmd[0]). */
  function AsWrittenRun(c: Config, level: seq<bool>, diff: seq<u32>, i: nat, hi: nat, out: seq<char>): (bool, seq<char>)
    requires |level| == |diff| && hi <= |diff|
    decreases hi - i
  {
    if i >= hi then (true, out)
    else
      match Emit(c, level[i], diff[i])
      case None => (false, out)
      case Some(e) =>
        var o := out + e;
        if |o| > c.cmdSize - 1 then (false, o) else AsWrittenRun(c, level, diff, i + 1, hi, o)
  }

  /** `gotData` as written, for marker indices lo and hi. */
  function AsWrittenGotData(c: Config, level: seq<bool>, diff: seq<u32>, lo: nat, hi: nat): (bool, seq<char>)
    requires |level| == |diff| && hi <= |diff|
  {
    if lo == 0 || hi == 0 then (false, []) else AsWrittenRun(c, level, diff, lo + 1, hi, [])
  }

  /** Resumed from a prefix that decoded to `out` within bounds, the
    * as-written loop agrees with DigitsBetween on the whole range. */
  lemma {:induction false} AsWrittenRunAgrees(
    c: Config, level: seq<bool>, diff: seq<u32>, start: nat, i: nat, hi: nat, out: seq<char>)
    requires |level| == |diff| && hi <= |diff| && start <= |diff|
    requires start <= i && (i <= hi || i == start)
    requires DigitsBetween(c, level, diff, start, i) == Some(out) && |out| <= c.cmdSize - 1
    ensures var r := DigitsBetween(c, level, diff, start, hi);
      AsWrittenRun(c, level, diff, i, hi, out).0 == (r.Some? && |r.value| <= c.cmdSize - 1)
    ensures AsWrittenRun(c, level, diff, i, hi, out).0 ==>
      AsWrittenRun(c, level, diff, i, hi, out).1 == DigitsBetween(c, level, diff, start, hi).value
    decreases hi - i
  {
    if i < hi {
      var r := DigitsBetween(c, level, diff, start, hi);
      match Emit(c, level[i], diff[i])
      case None =>
        assert DigitsBetween(c, level, diff, start, i + 1).None?;
        if r.Some? {
          DigitsExtend(c, level, diff, start, i + 1, hi);
        }
      case Some(e) =>
        var o := out + e;
        assert DigitsBetween(c, level, diff, start, i + 1) == Some(o);
        if |o| > c.cmdSize - 1 {
          if r.Some? {
            DigitsExtend(c, level, diff, start, i + 1, hi);
          }
        } else {
          AsWrittenRunAgrees(c, level, diff, start, i + 1, hi, o);
        }
    }
  }

  /** The defect never changes the verdict: the as-written loop reports
    * success exactly when the corrected decoder does, with the same
    * command. */
  lemma AsWrittenAgrees(c: Config, level: seq<bool>, diff: seq<u32>, lo: nat, hi: nat)
    requires ValidConfig(c)
    requires |level| == |diff| && lo < |diff| && hi <= |diff|
    ensures var (ok, written) := AsWrittenGotData(c, level, diff, lo, hi);
      ok == Decode(c, level, diff, lo, hi).Some? &&
      (ok ==> written == Decode(c, level, diff, lo, hi).value)
  {
    if lo != 0 && hi != 0 {
      AsWrittenRunAgrees(c, level, diff, lo + 1, lo + 1, hi, []);
    }
  }

  lemma {:induction false} AsWrittenRunBound(c: Config, level: seq<bool>, diff: seq<u32>, i: nat, hi: nat, out: seq<char>)
    requires |level| == |diff| && hi <= |diff| && |out| <= c.cmdSize - 1
    ensures |AsWrittenRun(c, level, diff, i, hi, out).1| <= c.cmdSize + 1
    decreases hi - i
  {
    if i < hi {
      match Emit(c, level[i], diff[i])
      case None =>
      case Some(e) =>
        if |out + e| <= c.cmdSize - 1 {
          AsWrittenRunBound(c, level, diff, i + 1, hi, out + e);
        }
    }
  }

  /** The as-written loop writes at most one character past the end of
    * an array of CMD_SIZE characters, and does so only on a failing run. */
  lemma AsWrittenBound(c: Config, level: seq<bool>, diff: seq<u32>, lo: nat, hi: nat)
    requires ValidConfig(c)
    requires |level| == |diff| && lo < |diff| && hi <= |diff|
    ensures var (ok, written) := AsWrittenGotData(c, level, diff, lo, hi);
      |written| <= c.cmdSize + 1 && (ok ==> |written| <= c.cmdSize - 1)
  {
    if lo != 0 && hi != 0 {
      AsWrittenRunBound(c, level, diff, lo + 1, hi, []);
      AsWrittenAgrees(c, level, diff, lo, hi);
    }
  }

  /** With CMD_SIZE 1, markers at 1 and 3 and one 2-byte interval between
    * them, the as-written loop writes cmd[0] and cmd[1]: one past the end. */
  lemma AsWrittenOverrun()
    ensures var c := Example.(cmdSize := 1);
      AsWrittenGotData(c, [false, false, true, false], [0, 12000, 1000, 12000], 1, 3) == (false, "11") &&
      |"11"| == c.cmdSize + 1
  {
    var c := Example.(cmdSize := 1);
    var level := [false, false, true, false];
    var diff: seq<u32> := [0, 12000, 1000, 12000];
    assert Emit(c, level[2], diff[2]) == Some(['1', '1']);
    assert AsWrittenRun(c, level, diff, 2, 3, []).1 == "11";
  }
}
