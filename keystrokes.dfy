/**
 * The keystroke scheduler of the keyboard firmware. A periodic tick handler
 * walks a script of NUL-terminated payloads; payload k is active strictly
 * between tick (k+1)*d and tick (k+1)*d + 2*sizeof(payload k). While a payload
 * is active the handler sends one 8-byte report per tick: on even ticks the
 * encoding of the character at index (tick - (k+1)*d) / 2, on odd ticks an
 * all-zero report (the key release).
 *
 * The schedule is stated for any script and any character encoder; the
 * firmware's own script (t0..t4) is `Script` and its encoder is
 * `FirmwareEncoder`, the encoder of module KeyEncoder. `ScriptWellFormed`
 * shows the script meets the conditions the general lemmas assume. Reports
 * sent are recorded in a ghost log in place of the interrupt endpoint.
 */
module Keystrokes {
  import opened Types
  import opened KeyEncoder

  /** A boot-keyboard input report. */
  type Report = seq<byte>

  const ReportSize: nat := 8

  /** The report with no modifier and no key pressed: the key release. */
  const Zero: Report := [0, 0, 0, 0, 0, 0, 0, 0]

  /** A report as the encoder can leave it: 8 bytes, byte 1 and bytes 3..7 zero. */
  predicate Clean(r: Report) {
    |r| == ReportSize && forall i :: 0 <= i < ReportSize && i != ModifierByte && i != KeycodeByte ==> r[i] == 0
  }

  /**
   * How reports are made: `press` stores one character into the report
   * buffer, and `release` is the report the handler starts every tick with.
   */
  datatype Encoder<!R> = Encoder(press: (char, R) -> R, release: R)

  /** The firmware's encoder (the buffer is always 8 bytes long where it is used). */
  const FirmwareEncoder: Encoder<Report> :=
    Encoder((c: char, buf: Report) => if |buf| > KeycodeByte then Format(c, buf) else buf, Zero)

  /** The tick distance `d` between the activation points of the payloads. */
  const D: nat := 1000

  /** The payloads, each with the terminating NUL that `sizeof` counts. */
  const T0: seq<char> := "  @\0"
  const T1: seq<char> := "cmd\n\0"
  const T2: seq<char> := "notepad script.py\n\0"
  const T3: seq<char> := "print('Hello world!')#&\0"
  const T4: seq<char> := "python script.py\n\0"

  /** The firmware's script: payload k is activated after tick (k+1)*d. */
  const Script: seq<seq<char>> := [T0, T1, T2, T3, T4]

  /**
   * A script whose payloads are NUL-terminated, hold at least one character
   * besides the NUL, and whose windows each fit within d ticks.
   */
  predicate WellFormed(script: seq<seq<char>>) {
    forall k :: 0 <= k < |script| ==>
      2 <= |script[k]| && 2 * |script[k]| <= D && script[k][|script[k]| - 1] == '\0'
  }

  /** The tick after which payload k becomes active. */
  function Delay(k: nat): (t: nat)
    ensures t == (k + 1) * D
  {
    (k + 1) * 1000  // written with the literal to keep the arithmetic linear
  }

  /** The first tick at which payload k is no longer active. */
  function End(script: seq<seq<char>>, k: nat): (t: nat)
    requires k < |script|
    ensures Delay(k) <= t
  {
    Delay(k) + 2 * |script[k]|
  }

  /** Payload k is active at `tick`: the handler sends a report for it. */
  predicate Active(script: seq<seq<char>>, k: nat, tick: nat): (r: bool)
    requires k < |script|
  {
    Delay(k) < tick < End(script, k)
  }

  /**
   * Payload k is active at the 2*sizeof - 1 ticks following its delay: the
   * handler sends for it from tick delay + 1 to tick delay + 2*sizeof - 1.
   */
  lemma {:induction false} ActiveOffsets(script: seq<seq<char>>, k: nat, tick: nat)
    requires k < |script|
    ensures Active(script, k, tick) <==> 1 <= tick - Delay(k) <= 2 * |script[k]| - 1
  {
  }

  /** No payload is active at `tick`. */
  predicate Idle(script: seq<seq<char>>, tick: nat) {
    forall k :: 0 <= k < |script| ==> !Active(script, k, tick)
  }

  /**
   * The index of the character encoded at an even tick of payload k's window.
   * It is always in bounds, and never 0, because the delay is even.
   */
  function CharIndex(script: seq<seq<char>>, k: nat, tick: nat): (i: nat)
    requires k < |script| && Active(script, k, tick) && tick % 2 == 0
    ensures 1 <= i < |script[k]|
    ensures tick == Delay(k) + 2 * i
  {
    DelayParity(k, 0);
    (tick - Delay(k)) / 2
  }

  /** The report buffer after the handler's block for payload k. */
  function After<R>(script: seq<seq<char>>, enc: Encoder<R>, tick: nat, k: nat, buf: R): (r: R)
    requires k < |script|
    ensures !(Active(script, k, tick) && tick % 2 == 0) ==> r == buf
  {
    if Active(script, k, tick) && tick % 2 == 0 then enc.press(script[k][CharIndex(script, k, tick)], buf) else buf
  }

  /**
   * The reports the handler sends at `tick` from the blocks for payloads
   * k, k+1, ..., starting from buffer `buf`. The blocks share the buffer,
   * so with overlapping windows a later block would send what earlier
   * blocks wrote.
   */
  function Handle<R>(script: seq<seq<char>>, enc: Encoder<R>, tick: nat, k: nat, buf: R): (sent: seq<R>)
    requires k <= |script|
    ensures |sent| <= |script| - k
    decreases |script| - k
  {
    if k == |script| then []
    else
      var b := After(script, enc, tick, k, buf);
      (if Active(script, k, tick) then [b] else []) + Handle(script, enc, tick, k + 1, b)
  }

  /** The reports sent by one call of the tick handler at `tick`. */
  function Emitted<R>(script: seq<seq<char>>, enc: Encoder<R>, tick: nat): (r: seq<R>)
    ensures |r| <= |script|
  {
    Handle(script, enc, tick, 0, enc.release)
  }

  /** The report that payload k's block sends at `tick` when it is the only active one. */
  function ReportAt<R>(script: seq<seq<char>>, enc: Encoder<R>, k: nat, tick: nat): (r: R)
    requires k < |script| && Active(script, k, tick)
    ensures tick % 2 == 1 ==> r == enc.release
  {
    if tick % 2 == 0 then enc.press(script[k][CharIndex(script, k, tick)], enc.release) else enc.release
  }

  /** Every report sent during the ticks lo..hi-1, in order. */
  function Log<R>(script: seq<seq<char>>, enc: Encoder<R>, lo: nat, hi: nat): (r: seq<R>)
    ensures hi <= lo ==> r == []
    decreases hi
  {
    if hi <= lo then [] else Log(script, enc, lo, hi - 1) + Emitted(script, enc, hi - 1)
  }

  // ---------------------------------------------------------------------
  // The tick handler as a class over the static `tick` counter.

  class Keyboard {
    /** The static tick counter: the number of handler calls so far. */
    var tick: nat
    /** Every report written to the interrupt endpoint, oldest first. */
    ghost var sent: seq<Report>

    ghost predicate Valid()
      reads this
    {
      sent == Log(Script, FirmwareEncoder, 0, tick)
    }

    constructor ()
      ensures Valid() && tick == 0 && sent == []
    {
      tick := 0;
      sent := [];
    }

    /**
     * One block of the handler, the one for payload k: it may encode into
     * the shared buffer and then send it. What it sends is the first part of
     * what `Handle` prescribes from block k on.
     */
    method ServeWindow(script: seq<seq<char>>, k: nat, buf: array<byte>)
      requires k < |script| && buf.Length == ReportSize
      modifies this`sent, buf
      ensures buf[..] == After(script, FirmwareEncoder, tick, k, old(buf[..]))
      ensures sent + Handle(script, FirmwareEncoder, tick, k + 1, buf[..])
        == old(sent) + Handle(script, FirmwareEncoder, tick, k, old(buf[..]))
    {
      ghost var before := buf[..];
      if Delay(k) < tick && tick < Delay(k) + 2 * |script[k]| {
        if tick % 2 == 0 {
          var t := (tick - Delay(k)) / 2;
          StringFormating(script[k][t], buf);
        }
        // the write of the 8-byte buffer to endpoint 0x81
        sent := sent + [buf[..]];
      }
      assert buf[..] == After(script, FirmwareEncoder, tick, k, before);
      ghost var now: seq<Report> := if Active(script, k, tick) then [buf[..]] else [];
      assert sent == old(sent) + now;
      HandleStep(script, FirmwareEncoder, tick, k, before);
      ConcatAssoc(old(sent), now, Handle(script, FirmwareEncoder, tick, k + 1, buf[..]));
    }

    /**
     * The five blocks of the handler, in order, sharing one buffer; the
     * handler passes the payloads t0..t4 as `script`.
     */
    method ServeWindows(script: seq<seq<char>>, buf: array<byte>)
      requires |script| == 5 && buf.Length == ReportSize
      modifies this`sent, buf
      ensures sent == old(sent) + Handle(script, FirmwareEncoder, tick, 0, old(buf[..]))
    {
      ghost var prescribed := old(sent) + Handle(script, FirmwareEncoder, tick, 0, buf[..]);
      ServeWindow(script, 0, buf);
      assert sent + Handle(script, FirmwareEncoder, tick, 1, buf[..]) == prescribed;
      ServeWindow(script, 1, buf);
      assert sent + Handle(script, FirmwareEncoder, tick, 2, buf[..]) == prescribed;
      ServeWindow(script, 2, buf);
      assert sent + Handle(script, FirmwareEncoder, tick, 3, buf[..]) == prescribed;
      ServeWindow(script, 3, buf);
      assert sent + Handle(script, FirmwareEncoder, tick, 4, buf[..]) == prescribed;
      ServeWindow(script, 4, buf);
      assert sent + Handle(script, FirmwareEncoder, tick, 5, buf[..]) == prescribed;
      assert Handle(script, FirmwareEncoder, tick, 5, buf[..]) == [];
    }

    /** The periodic tick handler. */
    method SysTickHandler()
      requires Valid()
      modifies this
      ensures Valid()
      ensures tick == old(tick) + 1
      ensures sent == old(sent) + Emitted(Script, FirmwareEncoder, old(tick))
    {
      var buf := new byte[ReportSize](_ => 0);
      assert buf[..] == Zero;
      ServeWindows(Script, buf);
      assert Log(Script, FirmwareEncoder, 0, tick + 1)
        == Log(Script, FirmwareEncoder, 0, tick) + Emitted(Script, FirmwareEncoder, tick);
      tick := tick + 1;
    }
  }

  // ---------------------------------------------------------------------
  // Small helpers.

  lemma {:induction false} ConcatAssoc<T>(a: seq<T>, b: seq<T>, c: seq<T>)
    ensures (a + b) + c == a + (b + c)
  {
  }

  /** Window k's ticks Delay(k) + 2i are even and the ticks between them odd. */
  lemma {:induction false} DelayParity(k: nat, i: nat)
    ensures (Delay(k) + 2 * i) % 2 == 0 && (Delay(k) + 2 * i + 1) % 2 == 1
  {
    assert Delay(k) + 2 * i == 2 * ((k + 1) * 500 + i);
  }

  /** The tick Delay(k) + 2i is even and the next one odd. */
  lemma {:induction false} TickParity(k: nat, i: nat, t: nat)
    requires t == Delay(k) + 2 * i
    ensures t % 2 == 0 && (t + 1) % 2 == 1
  {
    DelayParity(k, i);
  }

  /** The first step of `Handle`: the block for payload k. */
  lemma {:induction false} HandleStep<R>(script: seq<seq<char>>, enc: Encoder<R>, tick: nat, k: nat, buf: R)
    requires k < |script|
    ensures Handle(script, enc, tick, k, buf)
      == (if Active(script, k, tick) then [After(script, enc, tick, k, buf)] else [])
         + Handle(script, enc, tick, k + 1, After(script, enc, tick, k, buf))
  {
  }

  // ---------------------------------------------------------------------
  // The firmware's script.

  /** The five payloads are well formed, so the general lemmas apply to them. */
  lemma {:induction false} ScriptWellFormed()
    ensures |Script| == 5 && WellFormed(Script)
  {
    forall k | 0 <= k < |Script|
      ensures 2 <= |Script[k]| && 2 * |Script[k]| <= D && Script[k][|Script[k]| - 1] == '\0'
    {
      assert k == 0 || k == 1 || k == 2 || k == 3 || k == 4;
    }
  }

  /** The windows of the firmware's script, in ticks. */
  lemma {:induction false} ScriptWindows()
    ensures End(Script, 0) == 1008 && End(Script, 1) == 2010 && End(Script, 2) == 3038
    ensures End(Script, 3) == 4048 && End(Script, 4) == 5036
  {
  }

  // ---------------------------------------------------------------------
  // Properties of the schedule.

  /** The windows come in increasing order and do not overlap. */
  lemma {:induction false} WindowsOrdered(script: seq<seq<char>>, j: nat, k: nat)
    requires WellFormed(script) && j < k < |script|
    ensures End(script, j) <= Delay(k)
  {
    assert 2 * |script[j]| <= D;
  }

  /** At most one payload is active at any tick. */
  lemma {:induction false} WindowsDisjoint(script: seq<seq<char>>, j: nat, k: nat, tick: nat)
    requires WellFormed(script) && j < |script| && k < |script|
    requires Active(script, j, tick) && Active(script, k, tick)
    ensures j == k
  {
    if j < k {
      WindowsOrdered(script, j, k);
    } else if k < j {
      WindowsOrdered(script, k, j);
    }
  }

  /** Blocks of inactive payloads send nothing and leave the buffer alone. */
  lemma {:induction false} HandleSkip<R>(script: seq<seq<char>>, enc: Encoder<R>, tick: nat, j: nat, k: nat, buf: R)
    requires j <= k <= |script|
    requires forall i :: j <= i < k ==> !Active(script, i, tick)
    ensures Handle(script, enc, tick, j, buf) == Handle(script, enc, tick, k, buf)
    decreases k - j
  {
    if j < k {
      HandleStep(script, enc, tick, j, buf);
      HandleSkip(script, enc, tick, j + 1, k, buf);
    }
  }

  /** At an idle tick the handler sends nothing. */
  lemma {:induction false} EmittedIdle<R>(script: seq<seq<char>>, enc: Encoder<R>, tick: nat)
    requires Idle(script, tick)
    ensures Emitted(script, enc, tick) == []
  {
    HandleSkip(script, enc, tick, 0, |script|, enc.release);
  }

  /** At a tick where payload k is active, the handler sends exactly its report. */
  lemma {:induction false} EmittedActive<R>(script: seq<seq<char>>, enc: Encoder<R>, k: nat, tick: nat)
    requires WellFormed(script) && k < |script| && Active(script, k, tick)
    ensures Emitted(script, enc, tick) == [ReportAt(script, enc, k, tick)]
  {
    forall i | 0 <= i < |script| && i != k
      ensures !Active(script, i, tick)
    {
      if Active(script, i, tick) {
        WindowsDisjoint(script, i, k, tick);
      }
    }
    HandleSkip(script, enc, tick, 0, k, enc.release);
    HandleStep(script, enc, tick, k, enc.release);
    var b := After(script, enc, tick, k, enc.release);
    assert b == ReportAt(script, enc, k, tick);
    HandleSkip(script, enc, tick, k + 1, |script|, b);
  }

  /** One report per tick while some payload is active, none otherwise. */
  lemma {:induction false} OneReportPerTick<R>(script: seq<seq<char>>, enc: Encoder<R>, tick: nat)
    requires WellFormed(script)
    ensures |Emitted(script, enc, tick)| == if Idle(script, tick) then 0 else 1
  {
    if Idle(script, tick) {
      EmittedIdle(script, enc, tick);
    } else {
      var k :| 0 <= k < |script| && Active(script, k, tick);
      EmittedActive(script, enc, k, tick);
    }
  }

  /** A tick after window m-1 has closed and no later than window m opens is idle. */
  lemma {:induction false} IdleBetween(script: seq<seq<char>>, m: nat, tick: nat)
    requires WellFormed(script) && m <= |script|
    requires m == 0 || End(script, m - 1) <= tick
    requires m == |script| || tick <= Delay(m)
    ensures Idle(script, tick)
  {
    forall i | 0 <= i < |script|
      ensures !Active(script, i, tick)
    {
      if i < m - 1 {
        WindowsOrdered(script, i, m - 1);
      } else if m < i {
        WindowsOrdered(script, m, i);
      }
    }
  }

  /** Nothing is sent before the first window or once the last window has closed. */
  lemma {:induction false} SilentOutsideScript<R>(script: seq<seq<char>>, enc: Encoder<R>, tick: nat)
    requires WellFormed(script) && |script| > 0
    requires tick <= Delay(0) || tick >= End(script, |script| - 1)
    ensures Emitted(script, enc, tick) == []
  {
    if tick <= Delay(0) {
      IdleBetween(script, 0, tick);
    } else {
      IdleBetween(script, |script|, tick);
    }
    EmittedIdle(script, enc, tick);
  }

  /** The first character of a payload is never typed: the first press is of index 1. */
  lemma {:induction false} FirstPressSkipsIndexZero<R>(script: seq<seq<char>>, enc: Encoder<R>, k: nat)
    requires WellFormed(script) && k < |script|
    ensures Active(script, k, Delay(k) + 2) && (Delay(k) + 2) % 2 == 0
    ensures CharIndex(script, k, Delay(k) + 2) == 1
    ensures ReportAt(script, enc, k, Delay(k) + 2) == enc.press(script[k][1], enc.release)
  {
    DelayParity(k, 1);
  }

  /** The last press of a window encodes the NUL terminator. */
  lemma {:induction false} LastPressIsNul<R>(script: seq<seq<char>>, enc: Encoder<R>, k: nat)
    requires WellFormed(script) && k < |script|
    ensures Active(script, k, End(script, k) - 2) && (End(script, k) - 2) % 2 == 0
    ensures CharIndex(script, k, End(script, k) - 2) == |script[k]| - 1
    ensures ReportAt(script, enc, k, End(script, k) - 2) == enc.press('\0', enc.release)
  {
    DelayParity(k, |script[k]| - 1);
  }

  /** With the firmware's encoder that last press is an all-zero report, a second release. */
  lemma {:induction false} LastPressIsRelease(script: seq<seq<char>>, k: nat)
    requires WellFormed(script) && k < |script|
    ensures ReportAt(script, FirmwareEncoder, k, End(script, k) - 2) == Zero
  {
    LastPressIsNul(script, FirmwareEncoder, k);
    NulChangesNothing(Zero);
  }

  /**
   * Every report the firmware sends is 8 bytes long and has zeros outside
   * the modifier byte and the first keycode byte.
   */
  lemma {:induction false} FirmwareReportsClean(script: seq<seq<char>>, tick: nat)
    requires WellFormed(script)
    ensures forall r :: r in Emitted(script, FirmwareEncoder, tick) ==> Clean(r)
  {
    if Idle(script, tick) {
      EmittedIdle(script, FirmwareEncoder, tick);
    } else {
      var k :| 0 <= k < |script| && Active(script, k, tick);
      EmittedActive(script, FirmwareEncoder, k, tick);
      assert Clean(ReportAt(script, FirmwareEncoder, k, tick));
    }
  }

  // ---------------------------------------------------------------------
  // The whole log: each window types its payload from index 1 on as
  // release/press pairs, followed by one more release.

  /** The release/press pairs that type characters lo..hi-1 of `p`. */
  function Strokes<R>(enc: Encoder<R>, p: seq<char>, lo: nat, hi: nat): (r: seq<R>)
    requires lo <= hi <= |p|
    ensures |r| == 2 * (hi - lo)
    decreases hi
  {
    if hi == lo then [] else Strokes(enc, p, lo, hi - 1) + [enc.release, enc.press(p[hi - 1], enc.release)]
  }

  /** What window k sends, in order, from its first tick to its last. */
  function Typed<R>(script: seq<seq<char>>, enc: Encoder<R>, k: nat): (r: seq<R>)
    requires k < |script| && 1 <= |script[k]|
    ensures |r| == 2 * |script[k]| - 1
  {
    Strokes(enc, script[k], 1, |script[k]|) + [enc.release]
  }

  /** What windows 0..m-1 send together. */
  function TypedUpTo<R>(script: seq<seq<char>>, enc: Encoder<R>, m: nat): seq<R>
    requires WellFormed(script) && m <= |script|
  {
    if m == 0 then [] else TypedUpTo(script, enc, m - 1) + Typed(script, enc, m - 1)
  }

  // Sequence glue, each step in a context of its own.

  /** Appending a sequence known to be empty changes nothing. */
  lemma {:induction false} AppendNil<T>(x: seq<T>, y: seq<T>, e: seq<T>)
    requires x == y + e && e == []
    ensures x == y
  {
  }

  /** Equal pieces glue to equal wholes. */
  lemma {:induction false} Glue<T>(whole: seq<T>, a: seq<T>, b: seq<T>, x: seq<T>, y: seq<T>, target: seq<T>)
    requires whole == a + b && a == x && b == y && target == x + y
    ensures whole == target
  {
  }

  /** Two one-element pieces glue to a pair. */
  lemma {:induction false} GluePair<T>(whole: seq<T>, a: seq<T>, b: seq<T>, u: T, v: T)
    requires whole == a + b && a == [u] && b == [v]
    ensures whole == [u, v]
  {
  }

  /** A chain of three equalities. */
  lemma {:induction false} Chain<T>(a: seq<T>, b: seq<T>, c: seq<T>, d: seq<T>)
    requires a == b && b == c && c == d
    ensures a == d
  {
  }

  // The log over ranges of ticks.

  /** Extending a log by one tick appends what that tick sends. */
  lemma {:induction false} LogSnoc<R>(script: seq<seq<char>>, enc: Encoder<R>, lo: nat, hi: nat, next: nat)
    requires lo <= hi && next == hi + 1
    ensures Log(script, enc, lo, next) == Log(script, enc, lo, hi) + Emitted(script, enc, hi)
  {
  }

  /** The reports of consecutive tick ranges concatenate. */
  lemma {:induction false} LogSplit<R>(script: seq<seq<char>>, enc: Encoder<R>, a: nat, b: nat, c: nat)
    requires a <= b <= c
    ensures Log(script, enc, a, c) == Log(script, enc, a, b) + Log(script, enc, b, c)
    decreases c
  {
    if b < c {
      LogSplit(script, enc, a, b, c - 1);
      LogSnoc(script, enc, a, c - 1, c);
      LogSnoc(script, enc, b, c - 1, c);
      ConcatAssoc(Log(script, enc, a, b), Log(script, enc, b, c - 1), Emitted(script, enc, c - 1));
    } else {
      assert Log(script, enc, b, c) == [];
    }
  }

  /** A tick between two windows sends nothing. */
  lemma {:induction false} TickIdle<R>(script: seq<seq<char>>, enc: Encoder<R>, m: nat, t: nat)
    requires WellFormed(script) && m <= |script|
    requires m == 0 || End(script, m - 1) <= t
    requires m == |script| || t <= Delay(m)
    ensures Emitted(script, enc, t) == []
  {
    IdleBetween(script, m, t);
    EmittedIdle(script, enc, t);
  }

  /** A range of ticks that each send nothing sends nothing. */
  lemma {:induction false} LogSilent<R>(script: seq<seq<char>>, enc: Encoder<R>, a: nat, b: nat)
    requires forall t :: a <= t < b ==> Emitted(script, enc, t) == []
    ensures Log(script, enc, a, b) == []
    decreases b
  {
    if a < b {
      LogSilent(script, enc, a, b - 1);
      LogSnoc(script, enc, a, b - 1, b);
      AppendNil(Log(script, enc, a, b), Log(script, enc, a, b - 1), Emitted(script, enc, b - 1));
    }
  }

  /** Between two windows nothing is sent. */
  lemma {:induction false} LogIdle<R>(script: seq<seq<char>>, enc: Encoder<R>, m: nat, a: nat, b: nat)
    requires WellFormed(script) && m <= |script|
    requires m == 0 || End(script, m - 1) <= a
    requires m == |script| || b <= Delay(m) + 1
    ensures Log(script, enc, a, b) == []
  {
    forall t | a <= t < b
      ensures Emitted(script, enc, t) == []
    {
      TickIdle(script, enc, m, t);
    }
    LogSilent(script, enc, a, b);
  }

  /** Ticks t and m = t+1 together send what each of them sends. */
  lemma {:induction false} LogTwo<R>(script: seq<seq<char>>, enc: Encoder<R>, t: nat, m: nat, u: nat)
    requires m == t + 1 && u == m + 1
    ensures Log(script, enc, t, u) == Emitted(script, enc, t) + Emitted(script, enc, m)
  {
    LogSnoc(script, enc, t, t, m);
    assert Log(script, enc, t, m) == Emitted(script, enc, t);
    LogSnoc(script, enc, t, m, u);
  }

  /** The odd tick Delay(k) + 1 + 2i of window k sends a release. */
  lemma {:induction false} ReleaseAt<R>(script: seq<seq<char>>, enc: Encoder<R>, k: nat, i: nat)
    requires WellFormed(script) && k < |script| && i < |script[k]|
    ensures Emitted(script, enc, Delay(k) + 1 + 2 * i) == [enc.release]
  {
    TickParity(k, i, Delay(k) + 2 * i);
    EmittedActive(script, enc, k, Delay(k) + 1 + 2 * i);
  }

  /** The even tick Delay(k) + 2j of window k sends the press of character j. */
  lemma {:induction false} PressAt<R>(script: seq<seq<char>>, enc: Encoder<R>, k: nat, j: nat)
    requires WellFormed(script) && k < |script| && 1 <= j < |script[k]|
    ensures Emitted(script, enc, Delay(k) + 2 * j) == [enc.press(script[k][j], enc.release)]
  {
    TickParity(k, j, Delay(k) + 2 * j);
    EmittedActive(script, enc, k, Delay(k) + 2 * j);
    assert CharIndex(script, k, Delay(k) + 2 * j) == j;
  }

  /** Pair j of window k: a release at an odd tick, then the press of character j. */
  lemma {:induction false} LogPair<R>(script: seq<seq<char>>, enc: Encoder<R>, k: nat, j: nat)
    requires WellFormed(script) && k < |script| && 1 <= j < |script[k]|
    ensures Log(script, enc, Delay(k) + 1 + 2 * (j - 1), Delay(k) + 1 + 2 * j) == [enc.release, enc.press(script[k][j], enc.release)]
  {
    var t := Delay(k) + 1 + 2 * (j - 1);
    LogTwo(script, enc, t, Delay(k) + 2 * j, Delay(k) + 1 + 2 * j);
    ReleaseAt(script, enc, k, j - 1);
    PressAt(script, enc, k, j);
    GluePair(Log(script, enc, t, Delay(k) + 1 + 2 * j), Emitted(script, enc, t), Emitted(script, enc, Delay(k) + 2 * j),
      enc.release, enc.press(script[k][j], enc.release));
  }

  /** Typing one more character adds one release/press pair. */
  lemma {:induction false} StrokesStep<R>(enc: Encoder<R>, p: seq<char>, lo: nat, hi: nat)
    requires lo < hi <= |p|
    ensures Strokes(enc, p, lo, hi) == Strokes(enc, p, lo, hi - 1) + [enc.release, enc.press(p[hi - 1], enc.release)]
  {
  }

  /** One more release/press pair extends the typed prefix of window k by character j-1. */
  lemma {:induction false} LogPrefixStep<R>(script: seq<seq<char>>, enc: Encoder<R>, k: nat, j: nat)
    requires WellFormed(script) && k < |script| && 2 <= j <= |script[k]|
    requires Log(script, enc, Delay(k) + 1, Delay(k) + 1 + 2 * (j - 1 - 1)) == Strokes(enc, script[k], 1, j - 1)
    ensures Log(script, enc, Delay(k) + 1, Delay(k) + 1 + 2 * (j - 1)) == Strokes(enc, script[k], 1, j)
  {
    var start := Delay(k) + 1;
    var mid := Delay(k) + 1 + 2 * (j - 1 - 1);
    var next := Delay(k) + 1 + 2 * (j - 1);
    var pair := [enc.release, enc.press(script[k][j - 1], enc.release)];
    LogPair(script, enc, k, j - 1);
    LogSplit(script, enc, start, mid, next);
    StrokesStep(enc, script[k], 1, j);
    Glue(Log(script, enc, start, next), Log(script, enc, start, mid), Log(script, enc, mid, next),
      Strokes(enc, script[k], 1, j - 1), pair, Strokes(enc, script[k], 1, j));
  }

  /** The first j-1 release/press pairs of window k type payload characters 1..j-1. */
  lemma {:induction false} LogWindowPrefix<R>(script: seq<seq<char>>, enc: Encoder<R>, k: nat, j: nat)
    requires WellFormed(script) && k < |script| && 1 <= j <= |script[k]|
    ensures Log(script, enc, Delay(k) + 1, Delay(k) + 1 + 2 * (j - 1)) == Strokes(enc, script[k], 1, j)
  {
    if j > 1 {
      LogWindowPrefix(script, enc, k, j - 1);
      LogPrefixStep(script, enc, k, j);
    }
  }

  /** All release/press pairs of window k: the payload from index 1 on. */
  lemma {:induction false} LogWindowPairs<R>(script: seq<seq<char>>, enc: Encoder<R>, k: nat)
    requires WellFormed(script) && k < |script|
    ensures Log(script, enc, Delay(k) + 1, Delay(k) + 1 + 2 * (|script[k]| - 1)) == Strokes(enc, script[k], 1, |script[k]|)
  {
    LogWindowPrefix(script, enc, k, |script[k]|);
  }

  /** The last tick of window k sends a release. */
  lemma {:induction false} LastTickReleases<R>(script: seq<seq<char>>, enc: Encoder<R>, k: nat)
    requires WellFormed(script) && k < |script|
    ensures Emitted(script, enc, Delay(k) + 1 + 2 * (|script[k]| - 1)) == [enc.release]
  {
    ReleaseAt(script, enc, k, |script[k]| - 1);
  }

  /** Window k sends exactly `Typed(script, enc, k)`. */
  lemma {:induction false} LogWindow<R>(script: seq<seq<char>>, enc: Encoder<R>, k: nat)
    requires WellFormed(script) && k < |script|
    ensures Log(script, enc, Delay(k) + 1, End(script, k)) == Typed(script, enc, k)
  {
    var start := Delay(k) + 1;
    var last := Delay(k) + 1 + 2 * (|script[k]| - 1);
    LogWindowPairs(script, enc, k);
    LastTickReleases(script, enc, k);
    LogSnoc(script, enc, start, last, End(script, k));
    Glue(Log(script, enc, start, End(script, k)), Log(script, enc, start, last), Emitted(script, enc, last),
      Strokes(enc, script[k], 1, |script[k]|), [enc.release], Typed(script, enc, k));
  }

  /** The logs of windows 0..m-1, each from its opening to its close, in order. */
  function Windows<R>(script: seq<seq<char>>, enc: Encoder<R>, m: nat): seq<R>
    requires m <= |script|
  {
    if m == 0 then [] else Windows(script, enc, m - 1) + Log(script, enc, Delay(m - 1) + 1, End(script, m - 1))
  }

  /** One more window extends the window logs by that window's log. */
  lemma {:induction false} WindowsStep<R>(script: seq<seq<char>>, enc: Encoder<R>, m: nat)
    requires 0 < m <= |script|
    ensures Windows(script, enc, m) == Windows(script, enc, m - 1) + Log(script, enc, Delay(m - 1) + 1, End(script, m - 1))
  {
  }

  /** One more window extends what is typed by that window's payload. */
  lemma {:induction false} TypedUpToStep<R>(script: seq<seq<char>>, enc: Encoder<R>, m: nat)
    requires WellFormed(script) && 0 < m <= |script|
    ensures TypedUpTo(script, enc, m) == TypedUpTo(script, enc, m - 1) + Typed(script, enc, m - 1)
  {
  }

  /** From the opening of window j-1 to the opening of window j only window j-1 sends. */
  lemma {:induction false} LogWindowThenIdle<R>(script: seq<seq<char>>, enc: Encoder<R>, j: nat)
    requires WellFormed(script) && 0 < j < |script|
    ensures Log(script, enc, Delay(j - 1) + 1, Delay(j) + 1) == Log(script, enc, Delay(j - 1) + 1, End(script, j - 1))
  {
    WindowsOrdered(script, j - 1, j);
    LogIdle(script, enc, j, End(script, j - 1), Delay(j) + 1);
    LogSplit(script, enc, Delay(j - 1) + 1, End(script, j - 1), Delay(j) + 1);
    AppendNil(Log(script, enc, Delay(j - 1) + 1, Delay(j) + 1), Log(script, enc, Delay(j - 1) + 1, End(script, j - 1)),
      Log(script, enc, End(script, j - 1), Delay(j) + 1));
  }

  /** From the opening of window j-1 to the opening of window j the log grows by window j-1. */
  lemma {:induction false} LogBeforeStep<R>(script: seq<seq<char>>, enc: Encoder<R>, j: nat)
    requires WellFormed(script) && 0 < j < |script|
    requires Log(script, enc, 0, Delay(j - 1) + 1) == Windows(script, enc, j - 1)
    ensures Log(script, enc, 0, Delay(j) + 1) == Windows(script, enc, j)
  {
    var opens := Delay(j - 1) + 1;
    var next := Delay(j) + 1;
    LogWindowThenIdle(script, enc, j);
    LogSplit(script, enc, 0, opens, next);
    WindowsStep(script, enc, j);
    Glue(Log(script, enc, 0, next), Log(script, enc, 0, opens), Log(script, enc, opens, next),
      Windows(script, enc, j - 1), Log(script, enc, opens, End(script, j - 1)), Windows(script, enc, j));
  }

  /** Before the first window opens nothing has been sent. */
  lemma {:induction false} LogBeforeFirst<R>(script: seq<seq<char>>, enc: Encoder<R>)
    requires WellFormed(script) && 0 < |script|
    ensures Log(script, enc, 0, Delay(0) + 1) == Windows(script, enc, 0)
  {
    LogIdle(script, enc, 0, 0, Delay(0) + 1);
  }

  /** Before window j opens, the log holds windows 0..j-1. */
  lemma {:induction false} LogBefore<R>(script: seq<seq<char>>, enc: Encoder<R>, j: nat)
    requires WellFormed(script) && j < |script|
    ensures Log(script, enc, 0, Delay(j) + 1) == Windows(script, enc, j)
  {
    if j == 0 {
      LogBeforeFirst(script, enc);
    } else {
      LogBefore(script, enc, j - 1);
      LogBeforeStep(script, enc, j);
    }
  }

  /** Up to the close of window m-1 the log holds windows 0..m-1. */
  lemma {:induction false} LogUpTo<R>(script: seq<seq<char>>, enc: Encoder<R>, m: nat)
    requires WellFormed(script) && 0 < m <= |script|
    ensures Log(script, enc, 0, End(script, m - 1)) == Windows(script, enc, m)
  {
    var opens := Delay(m - 1) + 1;
    var closes := End(script, m - 1);
    LogBefore(script, enc, m - 1);
    LogSplit(script, enc, 0, opens, closes);
    WindowsStep(script, enc, m);
    Glue(Log(script, enc, 0, closes), Log(script, enc, 0, opens), Log(script, enc, opens, closes),
      Windows(script, enc, m - 1), Log(script, enc, opens, closes), Windows(script, enc, m));
  }

  /** Window m-1 extends the window logs exactly as it extends what is typed. */
  lemma {:induction false} WindowsTypedStep<R>(script: seq<seq<char>>, enc: Encoder<R>, m: nat)
    requires WellFormed(script) && 0 < m <= |script|
    requires Windows(script, enc, m - 1) == TypedUpTo(script, enc, m - 1)
    ensures Windows(script, enc, m) == TypedUpTo(script, enc, m)
  {
    LogWindow(script, enc, m - 1);
    WindowsStep(script, enc, m);
    TypedUpToStep(script, enc, m);
    Glue(Windows(script, enc, m), Windows(script, enc, m - 1), Log(script, enc, Delay(m - 1) + 1, End(script, m - 1)),
      TypedUpTo(script, enc, m - 1), Typed(script, enc, m - 1), TypedUpTo(script, enc, m));
  }

  /** The windows together type the payloads one after the other. */
  lemma {:induction false} WindowsTyped<R>(script: seq<seq<char>>, enc: Encoder<R>, m: nat)
    requires WellFormed(script) && m <= |script|
    ensures Windows(script, enc, m) == TypedUpTo(script, enc, m)
  {
    if m > 0 {
      WindowsTyped(script, enc, m - 1);
      WindowsTypedStep(script, enc, m);
    }
  }

  /** Once the script is over, the log holds exactly what every window typed. */
  lemma {:induction false} LogAfterScript<R>(script: seq<seq<char>>, enc: Encoder<R>, n: nat)
    requires WellFormed(script) && |script| > 0 && n >= End(script, |script| - 1)
    ensures Log(script, enc, 0, n) == TypedUpTo(script, enc, |script|)
  {
    var closes := End(script, |script| - 1);
    LogUpTo(script, enc, |script|);
    LogIdle(script, enc, |script|, closes, n);
    LogSplit(script, enc, 0, closes, n);
    AppendNil(Log(script, enc, 0, n), Log(script, enc, 0, closes), Log(script, enc, closes, n));
    WindowsTyped(script, enc, |script|);
    Chain(Log(script, enc, 0, n), Log(script, enc, 0, closes), Windows(script, enc, |script|), TypedUpTo(script, enc, |script|));
  }

  /**
   * The firmware's script: from tick 5036 on, the endpoint has received the
   * five payloads, each typed from its second character on, and nothing more.
   */
  lemma {:induction false} ScriptLog(n: nat)
    requires n >= 5036
    ensures Log(Script, FirmwareEncoder, 0, n)
      == Typed(Script, FirmwareEncoder, 0) + Typed(Script, FirmwareEncoder, 1) + Typed(Script, FirmwareEncoder, 2)
         + Typed(Script, FirmwareEncoder, 3) + Typed(Script, FirmwareEncoder, 4)
  {
    var e := FirmwareEncoder;
    ScriptWellFormed();
    ScriptWindows();
    LogAfterScript(Script, e, n);
    assert TypedUpTo(Script, e, 5) == TypedUpTo(Script, e, 4) + Typed(Script, e, 4);
    assert TypedUpTo(Script, e, 4) == TypedUpTo(Script, e, 3) + Typed(Script, e, 3);
    assert TypedUpTo(Script, e, 3) == TypedUpTo(Script, e, 2) + Typed(Script, e, 2);
    assert TypedUpTo(Script, e, 2) == TypedUpTo(Script, e, 1) + Typed(Script, e, 1);
    assert TypedUpTo(Script, e, 1) == Typed(Script, e, 0);
  }

  /**
   * The window of t1 = "cmd\n": 'c' at index 0 is never pressed; 'm' (16),
   * 'd' (7) and keypad Enter (88) are, each after a release; the NUL gives
   * one more all-zero report, and the window closes with a release.
   */
  lemma {:induction false} CmdWindow()
    ensures Typed(Script, FirmwareEncoder, 1)
      == [Zero, [0, 0, 16, 0, 0, 0, 0, 0], Zero, [0, 0, 7, 0, 0, 0, 0, 0], Zero, [0, 0, 88, 0, 0, 0, 0, 0], Zero, Zero, Zero]
  {
    var e := FirmwareEncoder;
    assert e.press('m', Zero) == [0, 0, 16, 0, 0, 0, 0, 0];
    assert e.press('d', Zero) == [0, 0, 7, 0, 0, 0, 0, 0];
    assert e.press('\n', Zero) == [0, 0, 88, 0, 0, 0, 0, 0];
    assert e.press('\0', Zero) == Zero;
    assert Strokes(e, T1, 1, 5) == Strokes(e, T1, 1, 4) + [Zero, e.press('\0', Zero)];
    assert Strokes(e, T1, 1, 4) == Strokes(e, T1, 1, 3) + [Zero, e.press('\n', Zero)];
    assert Strokes(e, T1, 1, 3) == Strokes(e, T1, 1, 2) + [Zero, e.press('d', Zero)];
    assert Strokes(e, T1, 1, 2) == [Zero, e.press('m', Zero)];
  }
}
