// The receiver of RFremote.cpp as an object over fixed-size arrays: the
// interrupt-shared capture state (`rfparams`), the edge handler `intSinal`,
// and `RFrecv` with its capture buffer, command buffer and marker indices.
// `micros()` and `digitalRead()` are passed in as plain values.

module RFremote {
  import opened Timing

  /** The capture state shared between the edge interrupt and the poll loop
    * (the global `rfparams`). */
  class RFparams {
    var lock: bool   // a captured edge waits to be drained
    var eof: bool    // the capture buffer is full and waits to be decoded
    var state: bool  // pin level at the last captured edge
    var diff: u32    // microseconds between the last two captured edges
    var tempo: u32   // clock reading at the last captured edge
    var idx: nat     // next capture buffer slot

    /** The field initialisation of the RFrecv constructor. */
    constructor (now: u32)
      ensures !lock && !eof && diff == 0 && tempo == now && !state && idx == 0
    {
      lock := false;
      eof := false;
      diff := 0;
      tempo := now;
      state := false;
      idx := 0;
    }
  }

  /** The edge interrupt.  `pin` is the level `digitalRead` returns; `now`
    * and `later` are the two `micros()` readings, the first used for the
    * interval and the second stored as the new edge time.  An edge that
    * arrives while a sample is pending or the buffer is full is dropped. */
  method IntSinal(p: RFparams, pin: bool, now: u32, later: u32)
    modifies p`lock, p`state, p`diff, p`tempo
    ensures old(!p.lock && !p.eof) ==>
      p.lock && p.state == pin && p.diff == Elapsed(old(p.tempo), now) && p.tempo == later
    ensures old(p.lock || p.eof) ==>
      p.lock == old(p.lock) && p.state == old(p.state) && p.diff == old(p.diff) && p.tempo == old(p.tempo)
  {
    if !p.lock && !p.eof {
      p.lock := true;
      p.state := pin;
      p.diff := Elapsed(p.tempo, now);
      p.tempo := later;
    }
  }

  function Blank(n: nat): seq<char>
  {
    seq(n, _ => '\0')
  }

  function LowLevels(n: nat): seq<bool>
  {
    seq(n, _ => false)
  }

  function ZeroIntervals(n: nat): seq<u32>
  {
    seq(n, _ => 0 as u32)
  }

  /** The decoder object: the capture buffer (`buffState`, `buffDiff`), the
    * decoded command `cmd` and the sync marker indices `foundIdx`. */
  class RFrecv {
    const cfg: Config
    const params: RFparams
    const buffState: array<bool>
    const buffDiff: array<u32>
    const cmd: array<char>
    const foundIdx: array<nat>

    /** The object invariant: the array sizes, the capture state and the
      * marker indices, each framed by what it reads. */
    ghost predicate Valid()
      reads this, params, buffState, buffDiff, foundIdx
    {
      Shape() && CaptureOk() && MarkersOk()
    }

    ghost predicate Shape()
    {
      ValidConfig(cfg) &&
      buffState.Length == cfg.buffSize && buffDiff.Length == cfg.buffSize &&
      cmd.Length == cfg.cmdSize && foundIdx.Length == 2
    }

    /** The capture index stays inside the buffer, `lock` and `eof` are
      * never both set, a full buffer has its index rewound, and while
      * capturing, every slot from idx on is still zero (the buffer fills
      * left to right from a cleared state). */
    ghost predicate CaptureOk()
      reads params, buffState, buffDiff
    {
      params.idx < cfg.buffSize &&
      !(params.lock && params.eof) &&
      (params.eof ==> params.idx == 0) &&
      (!params.eof ==> forall k :: params.idx <= k < buffState.Length ==> !buffState[k]) &&
      (!params.eof ==> forall k :: params.idx <= k < buffDiff.Length ==> buffDiff[k] == 0)
    }

    /** The marker indices are buffer positions. */
    ghost predicate MarkersOk()
      reads foundIdx
    {
      foundIdx.Length == 2 && foundIdx[0] < cfg.buffSize && foundIdx[1] < cfg.buffSize
    }

    constructor (cfg: Config, now: u32)
      requires ValidConfig(cfg)
      ensures Valid() && this.cfg == cfg
      ensures fresh(params) && fresh(buffState) && fresh(buffDiff) && fresh(cmd) && fresh(foundIdx)
      ensures !params.lock && !params.eof && params.diff == 0 && params.tempo == now &&
              !params.state && params.idx == 0
      ensures foundIdx[..] == [0, 0]
      ensures buffState[..] == LowLevels(cfg.buffSize) && buffDiff[..] == ZeroIntervals(cfg.buffSize)
      ensures cmd[..] == Blank(cfg.cmdSize)
    {
      this.cfg := cfg;
      params := new RFparams(now);
      buffState := new bool[cfg.buffSize];
      buffDiff := new u32[cfg.buffSize];
      cmd := new char[cfg.cmdSize];
      foundIdx := new nat[2];
      new;
      foundIdx[0] := 0;
      foundIdx[1] := 0;
      ResetBuffer();
      ResetCmd();
    }

    /** Clears the capture buffer. */
    method ResetBuffer()
      requires buffState.Length == cfg.buffSize && buffDiff.Length == cfg.buffSize
      modifies buffState, buffDiff
      ensures buffState[..] == LowLevels(cfg.buffSize) && buffDiff[..] == ZeroIntervals(cfg.buffSize)
    {
      var i := 0;
      while i < cfg.buffSize
        invariant 0 <= i <= cfg.buffSize
        invariant forall k :: 0 <= k < i ==> !buffState[k] && buffDiff[k] == 0
      {
        buffState[i] := false;
        buffDiff[i] := 0;
        i := i + 1;
      }
    }

    /** Clears the command to all '\0'. */
    method ResetCmd()
      requires cmd.Length == cfg.cmdSize
      modifies cmd
      ensures cmd[..] == Blank(cfg.cmdSize)
    {
      var i := 0;
      while i < cfg.cmdSize
        invariant 0 <= i <= cfg.cmdSize
        invariant forall k :: 0 <= k < i ==> cmd[k] == '\0'
      {
        cmd[i] := '\0';
        i := i + 1;
      }
    }

    /** Scans the capture buffer for the first two sync gaps, recording
      * their indices in foundIdx, and stops as soon as it has two. */
    method GotPattern() returns (found: bool)
      requires Valid()
      modifies foundIdx
      ensures Valid()
      ensures found == (|Markers(cfg, buffDiff[..])| >= 2)
      ensures foundIdx[..] == AfterScan(Markers(cfg, buffDiff[..]), old(foundIdx[..]))
    {
      ghost var d, prev := buffDiff[..], foundIdx[..];
      ghost var m: seq<nat> := [];
      found := false;
      var foundCount := 0;
      var i := 0;
      while i < cfg.buffSize
        invariant 0 <= i <= cfg.buffSize && !found
        invariant m == Markers(cfg, d[..i]) && foundCount == |m| <= 1
        invariant foundIdx[0] == (if foundCount == 1 then m[0] else prev[0])
        invariant foundIdx[1] == prev[1]
      {
        MarkersStep(cfg, d, i);
        if InPattern(cfg, buffDiff[i]) {
          foundIdx[foundCount] := i;
          foundCount := foundCount + 1;
          m := m + [i];
        }
        if foundCount > 1 {
          MarkersEarlyStop(cfg, d, i + 1);
          found := true;
          break;
        }
        i := i + 1;
      }
      if !found {
        assert d[..i] == d;
      }
      assert foundIdx[..] == [foundIdx[0], foundIdx[1]];
    }

    /** Decodes the positions strictly between the two markers into cmd.
      * This is the loop with the overflow test also made before the second
      * write of the 2-byte branch, so every write stays inside cmd. */
    method GotData() returns (ok: bool)
      requires Valid()
      modifies cmd
      ensures var r := Decode(cfg, buffState[..], buffDiff[..], foundIdx[0], foundIdx[1]);
        ok == r.Some? && (ok ==> cmd[..] == r.value + old(cmd[..])[|r.value|..])
      ensures foundIdx[0] == 0 || foundIdx[1] == 0 ==> cmd[..] == old(cmd[..])
    {
      ghost var st, df, prev := buffState[..], buffDiff[..], cmd[..];
      ghost var out: seq<char> := [];
      var isError := false;
      var cmdIdx := 0;
      if foundIdx[0] != 0 && foundIdx[1] != 0 {
        var lo, hi := foundIdx[0], foundIdx[1];
        var i := lo + 1;
        while i < hi
          invariant lo + 1 <= i && (i <= hi || i == lo + 1) && !isError
          invariant cmdIdx == |out| <= cfg.cmdSize - 1
          invariant DigitsBetween(cfg, st, df, lo + 1, i) == Some(out)
          invariant forall k :: 0 <= k < cmdIdx ==> cmd[k] == out[k]
          invariant forall k :: cmdIdx <= k < cmd.Length ==> cmd[k] == prev[k]
        {
          DigitsStep(cfg, st, df, lo + 1, i, out);
          var digit := Digit(buffState[i]);
          if InOneByte(cfg, buffDiff[i]) {
            cmd[cmdIdx] := digit;
            out := out + [digit];
          } else if InTwoByte(cfg, buffDiff[i]) {
            cmd[cmdIdx] := digit;
            cmdIdx := cmdIdx + 1;
            if cmdIdx > cfg.cmdSize - 1 {
              DecodeOverflowAt(cfg, st, df, lo, hi, i + 1);
              isError := true;
              break;
            }
            cmd[cmdIdx] := digit;
            out := out + [digit, digit];
          } else {
            DecodeInvalidAt(cfg, st, df, lo, hi, i);
            isError := true;
            break;
          }
          cmdIdx := cmdIdx + 1;
          if cmdIdx > cfg.cmdSize - 1 {
            DecodeOverflowAt(cfg, st, df, lo, hi, i + 1);
            isError := true;
            break;
          }
          i := i + 1;
        }
        if !isError {
          assert Decode(cfg, st, df, lo, hi) == Some(out);
          assert cmd[..] == out + prev[|out|..];
        }
      } else {
        isError := true;
      }
      ok := !isError;
    }

    /** The poll step.  With a sample pending and room in the buffer it
      * drains the sample into slot idx; with a full buffer it decodes it,
      * clears cmd on failure and starts a new capture cycle; otherwise it
      * does nothing.  Returns true exactly when a command was decoded. */
    method Available() returns (ret: bool)
      requires Valid()
      modifies params`lock, params`eof, params`idx, buffState, buffDiff, cmd, foundIdx
      ensures Valid()
      ensures params.state == old(params.state) && params.diff == old(params.diff) &&
              params.tempo == old(params.tempo)
      // drain
      ensures old(params.lock && !params.eof) ==>
        !ret && !params.lock &&
        (params.idx, params.eof) == Advance(cfg.buffSize, old(params.idx)) &&
        buffState[..] == old(buffState[..])[old(params.idx) := old(params.state)] &&
        buffDiff[..] == old(buffDiff[..])[old(params.idx) := old(params.diff)] &&
        cmd[..] == old(cmd[..]) && foundIdx[..] == old(foundIdx[..])
      // decode
      ensures old(params.eof) ==>
        var r := Receive(cfg, old(buffState[..]), old(buffDiff[..]));
        ret == r.Some? &&
        cmd[..] == (if ret then r.value + old(cmd[..])[|r.value|..] else Blank(cfg.cmdSize)) &&
        !params.eof && params.lock == old(params.lock) && params.idx == old(params.idx) &&
        buffState[..] == LowLevels(cfg.buffSize) && buffDiff[..] == ZeroIntervals(cfg.buffSize) &&
        foundIdx[..] == AfterScan(Markers(cfg, old(buffDiff[..])), old(foundIdx[..]))
      // idle
      ensures !old(params.lock) && !old(params.eof) ==>
        !ret && params.lock == old(params.lock) && params.eof == old(params.eof) &&
        params.idx == old(params.idx) &&
        buffState[..] == old(buffState[..]) && buffDiff[..] == old(buffDiff[..]) &&
        cmd[..] == old(cmd[..]) && foundIdx[..] == old(foundIdx[..])
    {
      ret := false;
      if params.lock && !params.eof {
        buffState[params.idx] := params.state;
        buffDiff[params.idx] := params.diff;
        params.lock := false;
        params.idx := params.idx + 1;
        if params.idx > cfg.buffSize - 1 {
          params.eof := true;
          params.idx := 0;
        }
      } else if params.eof {
        var pattern := GotPattern();
        if pattern {
          var data := GotData();
          if data {
            ret := true;
          }
        }
        if !ret {
          ResetCmd();
        }
        params.eof := false;
        ResetBuffer();
      }
    }
  }

  /** One edge interrupt taken as an atomic step between two polls: the
    * receiver's invariant, in particular that `lock` and `eof` are never
    * both set, survives it, and the buffers are untouched. */
  method InterruptStep(r: RFrecv, pin: bool, now: u32, later: u32)
    requires r.Valid()
    modifies r.params`lock, r.params`state, r.params`diff, r.params`tempo
    ensures r.Valid()
    ensures r.params.eof == old(r.params.eof) && r.params.idx == old(r.params.idx)
  {
    IntSinal(r.params, pin, now, later);
  }
}
