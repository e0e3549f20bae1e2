/**
 * The infrared repeater of src/main.cpp: every decoded signal that passes a
 * noise filter and arrives more than 300 ms after the last accepted one
 * becomes the signal to repeat, and once there is one it is sent again
 * every 2000 ms or more, with reception paused while sending.
 *
 * The receiver and the clock are inputs: `decoded` is what `irrecv.decode`
 * delivers on a pass of `loop`, if anything, and the three `millis()` calls
 * of a pass are three clock readings.
 */
module IrRepeater {
  import opened Arduino

  /** `RESEND_INTERVAL`, in milliseconds. */
  const ResendInterval: nat := 2000

  /** `MIN_SIGNAL_INTERVAL`, in milliseconds. */
  const MinSignalInterval: nat := 300

  /** The carrier frequency, in kHz, of a raw send. */
  const RawCarrierKhz: nat := 38

  /** The NEC repeat code. */
  const NecRepeat: nat := 0xFFFF_FFFF

  type U64 = x: int | 0 <= x < 0x1_0000_0000_0000_0000
  type U16 = x: int | 0 <= x < 0x1_0000

  /** The protocol a decoder recognised; the library's many others are `OtherProtocol`. */
  datatype DecodeType = Unknown | Nec | Sony | Rc5 | Rc6 | OtherProtocol(code: int)

  /** A `decode_results`: protocol, value, bit count and the raw mark/space timings. */
  datatype Signal = Signal(decodeType: DecodeType, value: U64, bits: U16, raw: seq<U16>)

  /** The zero-initialised global `lastSignal`. */
  const NoSignal: Signal := Signal(OtherProtocol(0), 0, 0, [])

  /** One call into the IR library. */
  datatype Transmission =
    | Encoded(protocol: DecodeType, value: U64, bits: U16)
    | Raw(timings: seq<U16>, carrierKhz: nat)

  datatype IrEffect = DisableReceive | Transmit(t: Transmission) | EnableReceive | ResumeReceive

  /**
   * `isValidSignal`: NEC repeat codes, unknown protocols and signals of fewer
   * than 8 bits are noise; everything else is kept. The NEC test for 0 bits
   * adds nothing to the 8-bit floor.
   */
  function IsValidSignal(r: Signal): (ok: bool)
    ensures ok <==> r.decodeType != Unknown && r.bits >= 8 && !(r.decodeType == Nec && r.value == NecRepeat)
  {
    if r.decodeType == Nec && (r.value == NecRepeat || r.bits == 0) then false
    else if r.decodeType == Unknown || r.bits < 8 then false
    else true
  }

  predicate HasEncoder(t: DecodeType)
  {
    t == Nec || t == Sony || t == Rc5 || t == Rc6
  }

  /**
   * `sendIR`: reception is paused around exactly one transmission, which
   * uses the protocol's own encoder for NEC, Sony, RC5 and RC6 and replays
   * the raw timings at 38 kHz for everything else.
   */
  function SendIR(signal: Signal): (effects: seq<IrEffect>)
    ensures |effects| == 3 && effects[0] == DisableReceive && effects[2] == EnableReceive
    ensures effects[1].Transmit?
    ensures HasEncoder(signal.decodeType) <==> effects[1].t.Encoded?
    ensures effects[1].t.Encoded? ==> effects[1].t == Encoded(signal.decodeType, signal.value, signal.bits)
    ensures effects[1].t.Raw? ==> effects[1].t == Raw(signal.raw, RawCarrierKhz)
  {
    var t := match signal.decodeType
      case Nec => Encoded(Nec, signal.value, signal.bits)
      case Sony => Encoded(Sony, signal.value, signal.bits)
      case Rc5 => Encoded(Rc5, signal.value, signal.bits)
      case Rc6 => Encoded(Rc6, signal.value, signal.bits)
      case _ => Raw(signal.raw, RawCarrierKhz);
    [DisableReceive, Transmit(t), EnableReceive]
  }

  /** Whether a signal decoded at `now` is taken, the last one having been taken at `lastReceive`. */
  predicate Captures(r: Signal, lastReceive: Millis, now: Millis)
  {
    IsValidSignal(r) && Elapsed(lastReceive, now) > MinSignalInterval
  }

  /** Within one wrap of the clock, a valid signal is taken exactly when more than 300 ms have really passed. */
  lemma CapturesExactly(r: Signal, t0: nat, t1: nat)
    requires IsValidSignal(r) && t0 <= t1 < t0 + ClockModulus
    ensures Captures(r, ClockAt(t0), ClockAt(t1)) <==> t1 - t0 > MinSignalInterval
  {
    ElapsedBetween(t0, t1);
  }

  /**
   * The real times at which successive passes of `loop` take valid signals
   * decoded at real times `ticks`, the last one having been taken at `last`:
   * a pass takes its signal exactly when `Captures` holds, and taking it moves
   * `lastReceiveTime` to that pass. Invalid signals change nothing and are
   * left out of `ticks`.
   */
  function TakenTimes(signals: seq<Signal>, last: nat, ticks: seq<nat>): seq<nat>
    requires |signals| == |ticks|
    decreases |ticks|
  {
    if ticks == [] then []
    else if Captures(signals[0], ClockAt(last), ClockAt(ticks[0])) then
      [ticks[0]] + TakenTimes(signals[1..], ticks[0], ticks[1..])
    else TakenTimes(signals[1..], last, ticks[1..])
  }

  /** For valid signals, the ones taken are the firings of a re-armed timer with a gap of 301 ms. */
  lemma {:induction false} TakenTimesAreFirings(signals: seq<Signal>, last: nat, ticks: seq<nat>)
    requires |signals| == |ticks|
    requires forall i :: 0 <= i < |signals| ==> IsValidSignal(signals[i])
    ensures TakenTimes(signals, last, ticks) == Firings(last, ticks, MinSignalInterval + 1)
    decreases |ticks|
  {
    if ticks != [] {
      var rest := signals[1..];
      assert forall i :: 0 <= i < |rest| ==> rest[i] == signals[i + 1];
      assert IsValidSignal(signals[0]);
      TakenTimesAreFirings(rest, ticks[0], ticks[1..]);
      TakenTimesAreFirings(rest, last, ticks[1..]);
    }
  }

  /**
   * Over a run of valid signals, each one taken comes more than 300 ms after
   * the previous one taken, however often the clock wraps in the run.
   */
  lemma CapturesSpaced(signals: seq<Signal>, last: nat, ticks: seq<nat>)
    requires |signals| == |ticks| && Ascending(last, ticks)
    requires forall i :: 0 <= i < |signals| ==> IsValidSignal(signals[i])
    ensures var r := TakenTimes(signals, last, ticks);
      && (forall i :: 0 <= i < |r| ==> r[i] in ticks)
      && (r != [] ==> r[0] - last > MinSignalInterval)
      && (forall i :: 0 < i < |r| ==> r[i] - r[i - 1] > MinSignalInterval)
  {
    TakenTimesAreFirings(signals, last, ticks);
    FiringsSpaced(last, ticks, MinSignalInterval + 1);
  }

  /** The globals of main.cpp that `loop` updates. */
  class Repeater {
    var lastSignal: Signal
    var hasSignal: bool
    var lastReceiveTime: Millis
    var lastSendTime: Millis

    /** The globals at boot. */
    constructor ()
      ensures lastSignal == NoSignal && !hasSignal && lastReceiveTime == 0 && lastSendTime == 0
    {
      lastSignal, hasSignal := NoSignal, false;
      lastReceiveTime, lastSendTime := 0, 0;
    }

    /**
     * One pass of `loop`. `now` is the clock when a signal was decoded,
     * `checkNow` the clock when the resend condition is checked and
     * `afterSendNow` the clock once the resend is done. A decoded signal
     * always resumes the receiver, and is taken only when it passes the
     * filter and the 300 ms debounce; a resend happens only when a signal has
     * ever been taken and 2000 ms have passed since the last resend.
     */
    method Loop(decoded: Option<Signal>, now: Millis, checkNow: Millis, afterSendNow: Millis)
      returns (effects: seq<IrEffect>)
      modifies this
      ensures var taken := decoded.Some? && Captures(decoded.value, old(lastReceiveTime), now);
        && (taken ==> lastSignal == decoded.value && hasSignal && lastReceiveTime == now)
        && (!taken ==> lastSignal == old(lastSignal) && hasSignal == old(hasSignal)
                       && lastReceiveTime == old(lastReceiveTime))
      ensures old(hasSignal) ==> hasSignal
      ensures var resend := hasSignal && Elapsed(old(lastSendTime), checkNow) >= ResendInterval;
        && effects == (if decoded.Some? then [ResumeReceive] else []) + (if resend then SendIR(lastSignal) else [])
        && lastSendTime == (if resend then afterSendNow else old(lastSendTime))
    {
      effects := [];
      if decoded.Some? {
        var results := decoded.value;
        if IsValidSignal(results) && Elapsed(lastReceiveTime, now) > MinSignalInterval {
          lastSignal := results;
          hasSignal := true;
          lastReceiveTime := now;
        }
        effects := [ResumeReceive];
      }
      if hasSignal && Elapsed(lastSendTime, checkNow) >= ResendInterval {
        effects := effects + SendIR(lastSignal);
        lastSendTime := afterSendNow;
      }
    }
  }
}
