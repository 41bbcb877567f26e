// Pure specification of the RF remote decoder in RFremote.cpp: the timing
// bands, the sync-marker scan, the digit decoding between two markers, and
// the index bookkeeping of the capture buffer.  The imperative model in
// receiver.dfy is proved against these functions.

module Timing {

  /** Unsigned 32-bit value: the width of the `micros()` clock and of the
    * recorded edge intervals. */
  newtype u32 = x: int | 0 <= x < 0x1_0000_0000

  const Modulus: int := 0x1_0000_0000

  datatype Option<T> = None | Some(value: T)

  /** The compile-time constants of RFremote.h: buffer and command sizes and
    * the three open timing windows (pattern, 1-byte band, 2-byte band). */
  datatype Config = Config(
    buffSize: nat,
    cmdSize: nat,
    patternMin: int, patternMax: int,
    oneByteMin: int, oneByteMax: int,
    twoByteMin: int, twoByteMax: int)

  /** Non-empty buffers, and window bounds that fit the unsigned 32-bit
    * interval they are compared with, so that comparing as integers agrees
    * with C's unsigned comparison. */
  predicate ValidConfig(c: Config)
  {
    c.buffSize > 0 && c.cmdSize > 0 &&
    0 <= c.patternMin < Modulus && 0 <= c.patternMax < Modulus &&
    0 <= c.oneByteMin < Modulus && 0 <= c.oneByteMax < Modulus &&
    0 <= c.twoByteMin < Modulus && 0 <= c.twoByteMax < Modulus
  }

  /** `micros() - tempo` computed in unsigned 32-bit arithmetic. */
  function Elapsed(since: u32, now: u32): u32
  {
    ((now as int - since as int) % Modulus) as u32
  }

  /** Adding the elapsed time back to the earlier reading gives the later
    * reading, modulo the clock's wrap-around. */
  lemma ElapsedRoundTrip(since: u32, now: u32)
    ensures (since as int + Elapsed(since, now) as int) % Modulus == now as int
    ensures since <= now ==> Elapsed(since, now) as int == now as int - since as int
  {
  }

  // ---------------------------------------------------------------------
  // Timing windows (all bounds are strict, as in the source)

  predicate InPattern(c: Config, d: u32)
  {
    c.patternMin < d as int < c.patternMax
  }

  predicate InOneByte(c: Config, d: u32)
  {
    c.oneByteMin < d as int < c.oneByteMax
  }

  predicate InTwoByte(c: Config, d: u32)
  {
    c.twoByteMin < d as int < c.twoByteMax
  }

  /** An interval that `gotData` accepts at all. */
  predicate InBand(c: Config, d: u32)
  {
    InOneByte(c, d) || InTwoByte(c, d)
  }

  /** The command character for a recorded pin level. */
  function Digit(level: bool): char
  {
    if level then '1' else '0'
  }

  /** The characters one buffer position contributes to the command: one
    * digit in the 1-byte band (checked first), the same digit twice in the
    * 2-byte band, and None (invalid timing) otherwise. */
  function Emit(c: Config, level: bool, d: u32): Option<seq<char>>
  {
    if InOneByte(c, d) then Some([Digit(level)])
    else if InTwoByte(c, d) then Some([Digit(level), Digit(level)])
    else None
  }

  // ---------------------------------------------------------------------
  // Sync markers

  /** Every index whose interval lies in the pattern window, in scan order. */
  function Markers(c: Config, diff: seq<u32>): (m: seq<nat>)
    ensures forall k :: 0 <= k < |m| ==> m[k] < |diff|
  {
    if |diff| == 0 then []
    else
      Markers(c, diff[..|diff| - 1])
      + (if InPattern(c, diff[|diff| - 1]) then [|diff| - 1] else [])
  }

  /** Every marker lies in the pattern window. */
  lemma {:induction false} MarkersQualify(c: Config, diff: seq<u32>)
    ensures forall a :: 0 <= a < |Markers(c, diff)| ==> InPattern(c, diff[Markers(c, diff)[a]])
  {
    if |diff| > 0 {
      var n := |diff| - 1;
      var init := diff[..n];
      MarkersQualify(c, init);
      var mi := Markers(c, init);
      var m := Markers(c, diff);
      assert m == mi + (if InPattern(c, diff[n]) then [n] else []);
      forall a | 0 <= a < |m|
        ensures InPattern(c, diff[m[a]])
      {
        if a < |mi| {
          assert InPattern(c, init[mi[a]]);
          assert m[a] == mi[a] && init[mi[a]] == diff[mi[a]];
        } else {
          assert m[a] == n;
        }
      }
    }
  }

  /** Markers are strictly increasing: scan order, no index twice. */
  lemma {:induction false} MarkersIncreasing(c: Config, diff: seq<u32>)
    ensures forall a, b :: 0 <= a < b < |Markers(c, diff)| ==> Markers(c, diff)[a] < Markers(c, diff)[b]
  {
    if |diff| > 0 {
      var n := |diff| - 1;
      var init := diff[..n];
      MarkersIncreasing(c, init);
      var mi := Markers(c, init);
      var m := Markers(c, diff);
      assert m == mi + (if InPattern(c, diff[n]) then [n] else []);
      forall a, b | 0 <= a < b < |m|
        ensures m[a] < m[b]
      {
        if b < |mi| {
          assert m[a] == mi[a] && m[b] == mi[b];
        } else {
          assert m[b] == n && m[a] == mi[a];
        }
      }
    }
  }

  /** Every index in the pattern window is a marker. */
  lemma {:induction false} MarkersComplete(c: Config, diff: seq<u32>)
    ensures forall j :: 0 <= j < |diff| && InPattern(c, diff[j]) ==> j in Markers(c, diff)
  {
    if |diff| > 0 {
      var n := |diff| - 1;
      var init := diff[..n];
      MarkersComplete(c, init);
      var mi := Markers(c, init);
      var m := Markers(c, diff);
      assert m == mi + (if InPattern(c, diff[n]) then [n] else []);
      forall j | 0 <= j < |diff| && InPattern(c, diff[j])
        ensures j in m
      {
        if j < n {
          assert init[j] == diff[j];
          assert j in mi;
        } else {
          assert m[|m| - 1] == n;
        }
      }
    }
  }

  /** Markers lists exactly the qualifying indices, strictly increasing. */
  lemma MarkersExact(c: Config, diff: seq<u32>)
    ensures var m := Markers(c, diff);
      (forall a :: 0 <= a < |m| ==> InPattern(c, diff[m[a]])) &&
      (forall a, b :: 0 <= a < b < |m| ==> m[a] < m[b]) &&
      (forall j :: 0 <= j < |diff| && InPattern(c, diff[j]) ==> j in m)
  {
    MarkersQualify(c, diff);
    MarkersIncreasing(c, diff);
    MarkersComplete(c, diff);
  }

  /** Scanning a prefix of the buffer finds a prefix of the markers. */
  lemma {:induction false} MarkersPrefix(c: Config, diff: seq<u32>, i: nat)
    requires i <= |diff|
    ensures Markers(c, diff[..i]) <= Markers(c, diff)
    decreases |diff|
  {
    if i < |diff| {
      var init := diff[..|diff| - 1];
      MarkersPrefix(c, init, i);
      assert init[..i] == diff[..i];
    } else {
      assert diff[..i] == diff;
    }
  }

  /** One more scan step: the markers of the first i + 1 positions. */
  lemma MarkersStep(c: Config, diff: seq<u32>, i: nat)
    requires i < |diff|
    ensures Markers(c, diff[..i + 1]) ==
      Markers(c, diff[..i]) + (if InPattern(c, diff[i]) then [i] else [])
  {
    assert diff[..i + 1][..i] == diff[..i];
  }

  /** Two markers found in a prefix are the first two markers of the whole
    * buffer: the scan may stop there. */
  lemma MarkersEarlyStop(c: Config, diff: seq<u32>, i: nat)
    requires i <= |diff| && |Markers(c, diff[..i])| == 2
    ensures |Markers(c, diff)| >= 2 && Markers(c, diff)[..2] == Markers(c, diff[..i])
  {
    MarkersPrefix(c, diff, i);
  }

  /** Two markers exist iff two distinct indices lie in the pattern window. */
  lemma TwoMarkersIff(c: Config, diff: seq<u32>)
    ensures |Markers(c, diff)| >= 2 <==>
      exists i, j :: 0 <= i < j < |diff| && InPattern(c, diff[i]) && InPattern(c, diff[j])
  {
    var m := Markers(c, diff);
    if |m| >= 2 {
      MarkersQualify(c, diff);
      MarkersIncreasing(c, diff);
      assert InPattern(c, diff[m[0]]) && InPattern(c, diff[m[1]]) && m[0] < m[1];
    }
    if exists i, j :: 0 <= i < j < |diff| && InPattern(c, diff[i]) && InPattern(c, diff[j]) {
      var i, j :| 0 <= i < j < |diff| && InPattern(c, diff[i]) && InPattern(c, diff[j]);
      MarkersComplete(c, diff);
      assert i in m && j in m;
      var a :| 0 <= a < |m| && m[a] == i;
      var b :| 0 <= b < |m| && m[b] == j;
      assert a != b;
    }
  }

  /** The first two markers are the first and the second index in the
    * pattern window, in scan order. */
  lemma FirstTwoMarkers(c: Config, diff: seq<u32>)
    requires |Markers(c, diff)| >= 2
    ensures var m := Markers(c, diff);
      m[0] < m[1] < |diff| && InPattern(c, diff[m[0]]) && InPattern(c, diff[m[1]]) &&
      (forall j :: 0 <= j < m[0] ==> !InPattern(c, diff[j])) &&
      (forall j :: m[0] < j < m[1] ==> !InPattern(c, diff[j]))
  {
    var m := Markers(c, diff);
    MarkersExact(c, diff);
    assert forall k :: 1 <= k < |m| ==> m[1] <= m[k];
  }

  /** The marker-index array after `gotPattern`: the first two markers when
    * found; with only one, the first slot holds it and the second keeps its
    * previous value; with none, both keep their previous values. */
  function AfterScan(m: seq<nat>, prev: seq<nat>): seq<nat>
    requires |prev| == 2
  {
    if |m| >= 2 then m[..2]
    else if |m| == 1 then [m[0], prev[1]]
    else prev
  }

  // ---------------------------------------------------------------------
  // Data decoding

  /** The characters produced by the positions start..stop-1 in order, or None
    * when some position has an interval outside both bands. */
  function DigitsBetween(c: Config, level: seq<bool>, diff: seq<u32>, start: nat, stop: nat): Option<seq<char>>
    requires |level| == |diff| && stop <= |diff|
    decreases stop
  {
    if stop <= start then Some([])
    else
      match DigitsBetween(c, level, diff, start, stop - 1)
      case None => None
      case Some(p) =>
        match Emit(c, level[stop - 1], diff[stop - 1])
        case None => None
        case Some(e) => Some(p + e)
  }

  /** Decoding fails exactly when some position in range has an interval
    * outside both bands. */
  lemma {:induction false} DigitsFailIff(c: Config, level: seq<bool>, diff: seq<u32>, start: nat, stop: nat)
    requires |level| == |diff| && stop <= |diff|
    ensures DigitsBetween(c, level, diff, start, stop).None? <==>
      exists k :: start <= k < stop && !InBand(c, diff[k])
    decreases stop
  {
    if stop > start {
      DigitsFailIff(c, level, diff, start, stop - 1);
    }
  }

  /** A decoded range is binary and holds one or two digits per position. */
  lemma {:induction false} DigitsShape(c: Config, level: seq<bool>, diff: seq<u32>, start: nat, stop: nat)
    requires |level| == |diff| && start <= stop <= |diff|
    requires DigitsBetween(c, level, diff, start, stop).Some?
    ensures var d := DigitsBetween(c, level, diff, start, stop).value;
      stop - start <= |d| <= 2 * (stop - start) &&
      forall k :: 0 <= k < |d| ==> d[k] == '0' || d[k] == '1'
    decreases stop
  {
    if stop > start {
      DigitsShape(c, level, diff, start, stop - 1);
    }
  }

  /** When every position is in the 1-byte band, the command is the levels
    * read as digits, one per position. */
  lemma {:induction false} DigitsOneByte(c: Config, level: seq<bool>, diff: seq<u32>, start: nat, stop: nat)
    requires |level| == |diff| && start <= stop <= |diff|
    requires forall k :: start <= k < stop ==> InOneByte(c, diff[k])
    ensures DigitsBetween(c, level, diff, start, stop).Some?
    ensures var d := DigitsBetween(c, level, diff, start, stop).value;
      |d| == stop - start &&
      forall j :: 0 <= j < stop - start ==> d[j] == Digit(level[start + j])
    decreases stop
  {
    if stop > start {
      DigitsOneByte(c, level, diff, start, stop - 1);
      var p := DigitsBetween(c, level, diff, start, stop - 1).value;
      assert DigitsBetween(c, level, diff, start, stop).value == p + [Digit(level[stop - 1])];
    }
  }

  /** When every position is in the 2-byte band (and not the 1-byte band),
    * every level appears as a pair of equal digits. */
  lemma {:induction false} DigitsTwoByte(c: Config, level: seq<bool>, diff: seq<u32>, start: nat, stop: nat)
    requires |level| == |diff| && start <= stop <= |diff|
    requires forall k :: start <= k < stop ==> !InOneByte(c, diff[k]) && InTwoByte(c, diff[k])
    ensures DigitsBetween(c, level, diff, start, stop).Some?
    ensures var d := DigitsBetween(c, level, diff, start, stop).value;
      |d| == 2 * (stop - start) &&
      forall j :: 0 <= j < stop - start ==> d[2 * j] == d[2 * j + 1] == Digit(level[start + j])
    decreases stop
  {
    if stop > start {
      DigitsTwoByte(c, level, diff, start, stop - 1);
      var p := DigitsBetween(c, level, diff, start, stop - 1).value;
      var d := DigitsBetween(c, level, diff, start, stop).value;
      assert d == p + [Digit(level[stop - 1]), Digit(level[stop - 1])];
      forall j | 0 <= j < stop - start
        ensures d[2 * j] == d[2 * j + 1] == Digit(level[start + j])
      {
        if j < stop - 1 - start {
          assert d[2 * j] == p[2 * j] && d[2 * j + 1] == p[2 * j + 1];
        }
      }
    }
  }

  /** Decoding a shorter range yields a prefix of decoding a longer one. */
  lemma {:induction false} DigitsExtend(c: Config, level: seq<bool>, diff: seq<u32>, start: nat, t: nat, t': nat)
    requires |level| == |diff| && t <= t' <= |diff|
    requires DigitsBetween(c, level, diff, start, t').Some?
    ensures DigitsBetween(c, level, diff, start, t).Some?
    ensures DigitsBetween(c, level, diff, start, t).value <= DigitsBetween(c, level, diff, start, t').value
    decreases t'
  {
    if t < t' && t' > start {
      DigitsExtend(c, level, diff, start, t, t' - 1);
      var a := DigitsBetween(c, level, diff, start, t).value;
      var b := DigitsBetween(c, level, diff, start, t' - 1).value;
      var e := DigitsBetween(c, level, diff, start, t').value;
      assert e[..|b|] == b;
      assert e[..|a|] == b[..|a|] == a;
    }
  }

  /** An interval outside both bands at position i voids every range
    * through it. */
  lemma DigitsInvalidAt(c: Config, level: seq<bool>, diff: seq<u32>, start: nat, i: nat, stop: nat)
    requires |level| == |diff| && start <= i < stop <= |diff| && !InBand(c, diff[i])
    ensures DigitsBetween(c, level, diff, start, stop).None?
  {
    DigitsFailIff(c, level, diff, start, stop);
  }

  /** Once the digits up to position i exceed a bound, no longer range
    * decodes to fewer. */
  lemma DigitsOverflowAt(c: Config, level: seq<bool>, diff: seq<u32>, start: nat, i: nat, stop: nat, bound: int)
    requires |level| == |diff| && i <= stop <= |diff|
    requires DigitsBetween(c, level, diff, start, i).Some?
    requires |DigitsBetween(c, level, diff, start, i).value| > bound
    ensures DigitsBetween(c, level, diff, start, stop).None? ||
            |DigitsBetween(c, level, diff, start, stop).value| > bound
  {
    if DigitsBetween(c, level, diff, start, stop).Some? {
      DigitsExtend(c, level, diff, start, i, stop);
    }
  }

  /** The outcome of `gotData` for marker indices lo, hi: the command it
    * leaves in cmd[0..n), or None when it returns 0.  A marker index of 0
    * counts as "not found"; at most CMD_SIZE - 1 digits are accepted. */
  function Decode(c: Config, level: seq<bool>, diff: seq<u32>, lo: nat, hi: nat): Option<seq<char>>
    requires |level| == |diff| && hi <= |diff|
  {
    if lo == 0 || hi == 0 then None
    else
      match DigitsBetween(c, level, diff, lo + 1, hi)
      case None => None
      case Some(d) => if |d| <= c.cmdSize - 1 then Some(d) else None
  }

  /** The outcome of one decode cycle over a full buffer: `gotPattern`
    * followed, when it succeeds, by `gotData` on the first two markers. */
  function Receive(c: Config, level: seq<bool>, diff: seq<u32>): Option<seq<char>>
    requires |level| == |diff|
  {
    var m := Markers(c, diff);
    if |m| < 2 then None else Decode(c, level, diff, m[0], m[1])
  }

  /** One step of the data loop: the digits up to position i + 1 extend
    * those up to i by what position i emits. */
  lemma DigitsStep(c: Config, level: seq<bool>, diff: seq<u32>, start: nat, i: nat, out: seq<char>)
    requires |level| == |diff| && start <= i < |diff|
    requires DigitsBetween(c, level, diff, start, i) == Some(out)
    ensures DigitsBetween(c, level, diff, start, i + 1) ==
      if InOneByte(c, diff[i]) then Some(out + [Digit(level[i])])
      else if InTwoByte(c, diff[i]) then Some(out + [Digit(level[i]), Digit(level[i])])
      else None
  {
  }

  /** `gotData` fails once it meets an interval outside both bands. */
  lemma DecodeInvalidAt(c: Config, level: seq<bool>, diff: seq<u32>, lo: nat, hi: nat, i: nat)
    requires |level| == |diff| && lo + 1 <= i < hi <= |diff| && !InBand(c, diff[i])
    ensures Decode(c, level, diff, lo, hi) == None
  {
    DigitsInvalidAt(c, level, diff, lo + 1, i, hi);
  }

  /** `gotData` fails once the digits up to position i reach CMD_SIZE. */
  lemma DecodeOverflowAt(c: Config, level: seq<bool>, diff: seq<u32>, lo: nat, hi: nat, i: nat)
    requires |level| == |diff| && lo + 1 <= i <= hi <= |diff|
    requires DigitsBetween(c, level, diff, lo + 1, i).Some?
    requires |DigitsBetween(c, level, diff, lo + 1, i).value| > c.cmdSize - 1
    ensures Decode(c, level, diff, lo, hi) == None
  {
    DigitsOverflowAt(c, level, diff, lo + 1, i, hi, c.cmdSize - 1);
  }

  /** A sync gap at buffer position 0 is a genuine marker, yet it makes the
    * whole frame fail: index 0 doubles as "not found". */
  lemma MarkerAtZeroRejected(c: Config, level: seq<bool>, diff: seq<u32>)
    requires |level| == |diff| && |diff| > 0 && InPattern(c, diff[0])
    ensures Receive(c, level, diff) == None
  {
    var m := Markers(c, diff);
    MarkersExact(c, diff);
    assert 0 in m;
    var k :| 0 <= k < |m| && m[k] == 0;
  }

  /** What an accepted frame looks like: two markers, the first not at
    * index 0, every interval strictly between them in a band, and a binary
    * command of one or two digits per position, shorter than CMD_SIZE. */
  lemma ReceiveSound(c: Config, level: seq<bool>, diff: seq<u32>)
    requires |level| == |diff|
    requires Receive(c, level, diff).Some?
    ensures var m := Markers(c, diff);
      var d := Receive(c, level, diff).value;
      |m| >= 2 && 0 < m[0] < m[1] &&
      (forall k :: m[0] < k < m[1] ==> InBand(c, diff[k])) &&
      |d| < c.cmdSize &&
      m[1] - m[0] - 1 <= |d| <= 2 * (m[1] - m[0] - 1) &&
      forall k :: 0 <= k < |d| ==> d[k] == '0' || d[k] == '1'
  {
    var m := Markers(c, diff);
    FirstTwoMarkers(c, diff);
    DigitsFailIff(c, level, diff, m[0] + 1, m[1]);
    DigitsShape(c, level, diff, m[0] + 1, m[1]);
  }

  /** A frame whose data intervals are all in the 1-byte band, with its
    * first marker past index 0 and fewer than CMD_SIZE data positions, is
    * accepted and decodes to its levels, one digit each. */
  lemma ReceiveOneByteFrame(c: Config, level: seq<bool>, diff: seq<u32>)
    requires |level| == |diff|
    requires |Markers(c, diff)| >= 2
    requires var m := Markers(c, diff);
      m[0] != 0 && m[1] - m[0] - 1 < c.cmdSize &&
      forall k :: m[0] < k < m[1] ==> InOneByte(c, diff[k])
    ensures Receive(c, level, diff).Some?
    ensures var m := Markers(c, diff);
      var d := Receive(c, level, diff).value;
      |d| + m[0] + 1 == m[1] &&
      forall j :: 0 <= j < |d| ==> d[j] == Digit(level[m[0] + 1 + j])
  {
    var m := Markers(c, diff);
    FirstTwoMarkers(c, diff);
    DigitsOneByte(c, level, diff, m[0] + 1, m[1]);
  }

  // ---------------------------------------------------------------------
  // Worked frames (bands 400-600 and 900-1100 us, sync gap 10000-15000 us)

  const Example: Config := Config(8, 16, 10000, 15000, 400, 600, 900, 1100)

  /** An 8-slot buffer whose only sync gaps are at positions 2 and 7. */
  lemma ExampleMarkers(c: Config, x: u32, diff: seq<u32>)
    requires c.patternMin == Example.patternMin && c.patternMax == Example.patternMax
    requires x < 10000 && diff == [0, 0, 12000, 500, x, 500, 1000, 12000]
    ensures Markers(c, diff) == [2, 7]
  {
    assert Markers(c, diff[..1]) == [] by {
      assert diff[..1][..0] == diff[..0];
    }
    assert Markers(c, diff[..2]) == [] by {
      assert diff[..2][..1] == diff[..1];
    }
    assert Markers(c, diff[..3]) == [2] by {
      assert diff[..3][..2] == diff[..2];
    }
    assert Markers(c, diff[..4]) == [2] by {
      assert diff[..4][..3] == diff[..3];
    }
    assert Markers(c, diff[..5]) == [2] by {
      assert diff[..5][..4] == diff[..4];
    }
    assert Markers(c, diff[..6]) == [2] by {
      assert diff[..6][..5] == diff[..5];
    }
    assert Markers(c, diff[..7]) == [2] by {
      assert diff[..7][..6] == diff[..6];
    }
    assert diff[..8] == diff;
  }

  /** Markers at 2 and 7, data levels 1,0,1,0 on alternating 1-byte and
    * 2-byte intervals: the 2-byte positions are doubled, giving six digits,
    * so the frame is accepted only when CMD_SIZE exceeds 6. */
  lemma ExampleFrame(cmdSize: nat)
    ensures Receive(Example.(cmdSize := cmdSize), [false, false, false, true, false, true, false, false],
                    [0, 0, 12000, 500, 1000, 500, 1000, 12000])
            == if cmdSize > 6 then Some("100100") else None
  {
    var c := Example.(cmdSize := cmdSize);
    var level := [false, false, false, true, false, true, false, false];
    var diff: seq<u32> := [0, 0, 12000, 500, 1000, 500, 1000, 12000];
    ExampleMarkers(c, diff[4], diff);
    assert DigitsBetween(c, level, diff, 3, 4).value == "1";
    assert DigitsBetween(c, level, diff, 3, 5).value == "100";
    assert DigitsBetween(c, level, diff, 3, 6).value == "1001";
    assert DigitsBetween(c, level, diff, 3, 7).value == "100100";
  }

  /** An interval of 700 us lies between the two bands and voids the frame. */
  lemma ExampleInvalidTiming()
    ensures Receive(Example, [false, false, false, true, false, true, false, false],
                    [0, 0, 12000, 500, 700, 500, 1000, 12000]) == None
  {
    var level := [false, false, false, true, false, true, false, false];
    var diff: seq<u32> := [0, 0, 12000, 500, 700, 500, 1000, 12000];
    ExampleMarkers(Example, diff[4], diff);
    DigitsFailIff(Example, level, diff, 3, 7);
    assert !InBand(Example, diff[4]);
  }

  // ---------------------------------------------------------------------
  // Capture index bookkeeping

  /** (idx, eof) after one drain into slot idx of an n-slot buffer. */
  function Advance(n: nat, idx: nat): (nat, bool)
  {
    if idx + 1 > n - 1 then (0, true) else (idx + 1, false)
  }

  /** (idx, eof) after k drains starting from an empty buffer. */
  function Drains(n: nat, k: nat): (nat, bool)
  {
    if k == 0 then (0, false) else Advance(n, Drains(n, k - 1).0)
  }

  /** The buffer closes after exactly n drains: before that eof stays clear
    * and idx counts the drains; the n-th drain sets eof and rewinds idx. */
  lemma {:induction false} DrainsFill(n: nat, k: nat)
    requires 0 < n && k <= n
    ensures Drains(n, k) == if k < n then (k, false) else (0, true)
  {
    if k > 0 {
      DrainsFill(n, k - 1);
    }
  }
}
