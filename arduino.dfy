/**
 * The parts of the Arduino/ESP32 runtime that the firmware's logic depends on,
 * stated as values: the 32-bit millisecond clock, IPv4 addresses, bytes,
 * `strncpy` into a fixed character buffer, and the search and slicing
 * operations of the Arduino `String` class.
 */
module Arduino {

  datatype Option<T> = None | Some(value: T)

  type byte = bv8

  /** An `IPAddress`: four octets, most significant first. */
  datatype IPv4 = IPv4(a: byte, b: byte, c: byte, d: byte)
  {
    function Octets(): seq<byte> { [a, b, c, d] }
  }

  /** The address `0.0.0.0`, reported when there is no station address. */
  const Unspecified: IPv4 := IPv4(0, 0, 0, 0)

  // ---------------------------------------------------------------------------
  // millis(): an `unsigned long`, 32 bits wide on the ESP32, that wraps around.

  const ClockModulus: nat := 0x1_0000_0000

  type Millis = t: int | 0 <= t < ClockModulus

  /** `now - since` computed in `unsigned long` arithmetic. */
  function Elapsed(since: Millis, now: Millis): (d: Millis)
    ensures since <= now ==> d == now - since
    ensures now < since ==> d == ClockModulus - since + now
  {
    (now - since) % ClockModulus
  }

  /** The clock reading at real time `t` (milliseconds since boot). */
  function ClockAt(t: nat): Millis
  {
    t % ClockModulus
  }

  /** Between two real times less than one wrap apart, the wrapped difference is the real one. */
  lemma ElapsedBetween(t0: nat, t1: nat)
    requires t0 <= t1 < t0 + ClockModulus
    ensures Elapsed(ClockAt(t0), ClockAt(t1)) == t1 - t0
  {
    var q0, q1 := t0 / ClockModulus, t1 / ClockModulus;
    assert t0 == q0 * ClockModulus + ClockAt(t0);
    assert t1 == q1 * ClockModulus + ClockAt(t1);
    if ClockAt(t0) <= ClockAt(t1) {
      assert q1 == q0;
    } else {
      assert q1 == q0 + 1;
    }
  }

  /** Two real times whose wrapped difference is below one wrap are at most that far apart. */
  lemma ElapsedLowerBound(t0: nat, t1: nat)
    requires t0 <= t1
    ensures Elapsed(ClockAt(t0), ClockAt(t1)) <= t1 - t0
  {
    if t1 < t0 + ClockModulus {
      ElapsedBetween(t0, t1);
    }
  }

  /**
   * The real times, among checks made at real times `ticks`, at which a
   * timer of the form `if (millis() - last >= minGap) { last = millis(); ... }`
   * fires, when it last fired at real time `last`.
   */
  function Firings(last: nat, ticks: seq<nat>, minGap: nat): seq<nat>
    decreases |ticks|
  {
    if ticks == [] then []
    else if Elapsed(ClockAt(last), ClockAt(ticks[0])) >= minGap then [ticks[0]] + Firings(ticks[0], ticks[1..], minGap)
    else Firings(last, ticks[1..], minGap)
  }

  /** Checks made in order, none before `last`. */
  predicate Ascending(last: nat, ticks: seq<nat>)
  {
    (ticks != [] ==> last <= ticks[0]) && forall i :: 0 < i < |ticks| ==> ticks[i - 1] <= ticks[i]
  }

  /**
   * Such a timer fires only at checks, at least `minGap` after its last
   * firing, and its firings are at least `minGap` apart, however long the run
   * and however often the clock wraps in it.
   */
  lemma {:induction false} FiringsSpaced(last: nat, ticks: seq<nat>, minGap: nat)
    requires Ascending(last, ticks)
    ensures var r := Firings(last, ticks, minGap);
      && (forall i :: 0 <= i < |r| ==> r[i] in ticks)
      && (r != [] ==> last + minGap <= r[0])
      && (forall i :: 0 < i < |r| ==> r[i - 1] + minGap <= r[i])
    decreases |ticks|
  {
    if ticks != [] {
      var t, rest := ticks[0], ticks[1..];
      forall i | 0 < i < |rest|
        ensures rest[i - 1] <= rest[i]
      {
        assert rest[i - 1] == ticks[i] && rest[i] == ticks[i + 1];
      }
      if rest != [] {
        assert rest[0] == ticks[1];
      }
      if Elapsed(ClockAt(last), ClockAt(t)) >= minGap {
        ElapsedLowerBound(last, t);
        FiringsSpaced(t, rest, minGap);
        assert Firings(last, ticks, minGap) == [t] + Firings(t, rest, minGap);
      } else {
        FiringsSpaced(last, rest, minGap);
        assert Firings(last, ticks, minGap) == Firings(last, rest, minGap);
      }
    }
  }

  // ---------------------------------------------------------------------------
  // strncpy(dst, src, count) into a buffer of count + 1 characters whose last
  // character is zero and is never written: the buffer then holds the first
  // `count` characters of `src`.

  function Truncate(s: string, count: nat): (r: string)
    ensures |r| <= count && |r| <= |s|
    ensures |s| <= count ==> r == s
    ensures |s| > count ==> |r| == count
    ensures r == s[..|r|]
  {
    if |s| <= count then s else s[..count]
  }

  // ---------------------------------------------------------------------------
  // The Arduino `String` class of the ESP32 core. Indices passed to it are
  // `unsigned int`, so an `int` of -1 arrives as 2^32 - 1.

  /** A `String`: its length is an `unsigned int`. */
  type ArduinoString = s: string | |s| < ClockModulus witness ""

  function AsUnsigned(i: int): (u: nat)
    ensures 0 <= i < ClockModulus ==> u == i
    ensures i == -1 ==> u == ClockModulus - 1
    ensures u < ClockModulus
  {
    i % ClockModulus
  }

  predicate OccursAt(s: string, pattern: string, i: nat)
  {
    i + |pattern| <= |s| && s[i..i + |pattern|] == pattern
  }

  /** `s.indexOf(pattern, from)`: -1 when `from` is past the end, else the first match at or after `from`. */
  function IndexOfFrom(s: string, pattern: string, from: nat): (r: int)
    ensures r == -1 || (from <= r < |s| && OccursAt(s, pattern, r))
    ensures forall i :: from <= i < |s| && (r == -1 || i < r) ==> !OccursAt(s, pattern, i)
    decreases |s| - from
  {
    if from >= |s| then -1
    else if OccursAt(s, pattern, from) then from
    else IndexOfFrom(s, pattern, from + 1)
  }

  /** `s.indexOf(pattern)`: the search from index 0. */
  function IndexOf(s: string, pattern: string): (r: int)
    ensures r == -1 || (0 <= r < |s| && OccursAt(s, pattern, r))
    ensures forall i :: 0 <= i < |s| && (r == -1 || i < r) ==> !OccursAt(s, pattern, i)
  {
    IndexOfFrom(s, pattern, 0)
  }

  /** `s.substring(left, right)`: the bounds are swapped if out of order and the upper one is clamped to the length. */
  function Substring(s: string, left: nat, right: nat): (r: string)
    ensures left <= right <= |s| ==> r == s[left..right]
    ensures left <= |s| <= right ==> r == s[left..]
    ensures |s| <= left <= right ==> r == []
    ensures right < left <= |s| ==> r == s[right..left]
    ensures right < left && |s| < left ==> r == (if right >= |s| then [] else s[right..])
  {
    var lo := if left <= right then left else right;
    var hi := if left <= right then right else left;
    if lo >= |s| then [] else s[lo..if hi <= |s| then hi else |s|]
  }
}
