/** The decision logic of the chord keyboard, as pure functions.

    Time is an integer number of nanoseconds measured from Go's zero
    `time.Time`, so a ledger slot that was never written holds 0. A ledger is
    the sequence of the eight "last seen pressed" timestamps, one per switch.
 */
module Chord {

  datatype Option<T> = None | Some(value: T)

  /** What one tick hands to the USB HID endpoint: a packed chord byte, or the
      eight ASCII digits of the diagnostic mode. */
  datatype Report = ByteReport(chord: bv8) | TextReport(text: seq<bv8>)

  /** The ledger after a tick, and what the tick emitted. */
  datatype Step = Step(ledger: seq<int>, out: Option<Report>)

  /** uint8: the type of Go's `keyCount` and of the value `logPress` returns.
      Arithmetic on it that would wrap is rejected by the range check. */
  newtype uint8 = x: int | 0 <= x < 0x100

  /** Number of switches, fixed by the GPIO pin list. */
  const Keys: nat := 8

  /** The aggregation window: 50 ms in nanoseconds. */
  const Timeout: int := 50_000_000

  /** The zero `time.Time`, the value of a slot nobody has written. */
  const ZeroTime: int := 0

  const Ascii0: bv8 := 0x30
  const Ascii1: bv8 := 0x31

  /** A ledger of fresh zero-valued slots, as `make([]time.Time, 8)` gives. */
  function ZeroLedger(): (l: seq<int>)
    ensures |l| == Keys
    ensures forall i :: 0 <= i < Keys ==> l[i] == ZeroTime
  {
    seq(Keys, _ => ZeroTime)
  }

  /** `t.Before(u)`: strictly earlier. */
  predicate Before(t: int, u: int)
  {
    t < u
  }

  /** `now.Add(-Timeout)`: the instant one window before `now`. */
  function Threshold(now: int): (th: int)
    ensures Before(th, now) && now - th == Timeout
  {
    now - Timeout
  }

  /** A slot counts toward the chord when its timestamp is not before the
      threshold; the boundary itself is included. */
  predicate InWindow(t: int, now: int)
    ensures InWindow(t, now) <==> now - t <= Timeout
  {
    !Before(t, Threshold(now))
  }

  /** The number of pressed switches in a sampling pass. */
  function CountPressed(pressed: seq<bool>): (n: nat)
    ensures n <= |pressed|
    ensures n == 0 <==> forall i :: 0 <= i < |pressed| ==> !pressed[i]
  {
    if pressed == [] then 0
    else CountPressed(pressed[..|pressed| - 1]) + (if pressed[|pressed| - 1] then 1 else 0)
  }

  /** The ledger after a sampling pass at time `now`: each pressed switch's
      slot holds `now`, every other slot is kept. */
  function Stamp(ledger: seq<int>, pressed: seq<bool>, now: int): (l: seq<int>)
    requires |ledger| == |pressed|
    ensures |l| == |ledger|
    ensures forall i :: 0 <= i < |l| ==> l[i] == if pressed[i] then now else ledger[i]
  {
    seq(|ledger|, i requires 0 <= i < |ledger| => if pressed[i] then now else ledger[i])
  }

  /** The chord bit of switch `i`: bit 7-i, most significant bit first. */
  function Bit(i: int): (b: bv8)
    requires 0 <= i < Keys
    ensures b == (1 as bv8) << (7 - i)
  {
    match i
    case 0 => 0x80
    case 1 => 0x40
    case 2 => 0x20
    case 3 => 0x10
    case 4 => 0x08
    case 5 => 0x04
    case 6 => 0x02
    case _ => 0x01
  }

  /** A bit of `a | b` is set iff it is set in `a` or in `b`. */
  lemma OrBits(a: bv8, b: bv8)
    ensures forall i :: 0 <= i < Keys ==> ((a | b) & Bit(i) != 0 <==> a & Bit(i) != 0 || b & Bit(i) != 0)
  {
  }

  /** The chord bits of distinct switches do not overlap. */
  lemma BitsDisjoint(j: int)
    requires 0 <= j < Keys
    ensures forall i :: 0 <= i < Keys ==> (Bit(j) & Bit(i) != 0 <==> i == j)
  {
  }

  /** The chord byte built from the first `k` slots. */
  function PrefixMask(ledger: seq<int>, now: int, k: nat): (m: bv8)
    requires |ledger| == Keys && k <= Keys
    ensures forall i :: 0 <= i < Keys ==> (m & Bit(i) != 0 <==> i < k && InWindow(ledger[i], now))
  {
    if k == 0 then 0
    else
      var prev := PrefixMask(ledger, now, k - 1);
      var bit: bv8 := if InWindow(ledger[k - 1], now) then Bit(k - 1) else 0;
      OrBits(prev, bit);
      BitsDisjoint(k - 1);
      prev | bit
  }

  /** The chord byte of a ledger at time `now`. */
  function Mask(ledger: seq<int>, now: int): (m: bv8)
    requires |ledger| == Keys
    ensures forall i :: 0 <= i < Keys ==> (m & Bit(i) != 0 <==> InWindow(ledger[i], now))
  {
    PrefixMask(ledger, now, Keys)
  }

  /** The diagnostic text of a chord byte: one ASCII digit per switch, most
      significant bit first. */
  function Render(m: bv8): (text: seq<bv8>)
    ensures |text| == Keys
    ensures forall i :: 0 <= i < Keys ==> (text[i] == Ascii1 <==> m & Bit(i) != 0)
    ensures forall i :: 0 <= i < Keys ==> (text[i] == Ascii0 <==> m & Bit(i) == 0)
  {
    seq(Keys, i requires 0 <= i < Keys => if m & Bit(i) != 0 then Ascii1 else Ascii0)
  }

  /** The report the driver writes for a non-zero chord byte: the byte
      itself, or in diagnostic mode its eight digits. */
  function Emit(m: bv8, debug: bool): (r: Report)
    ensures r.ByteReport? <==> !debug
    ensures r.ByteReport? ==> r.chord == m
    ensures r.TextReport? ==> |r.text| == Keys && forall i :: 0 <= i < Keys ==> (r.text[i] == Ascii1 <==> m & Bit(i) != 0)
    ensures r.TextReport? ==> forall i :: 0 <= i < Keys ==> (r.text[i] == Ascii0 <==> m & Bit(i) == 0)
  {
    if debug then TextReport(Render(m)) else ByteReport(m)
  }

  /** One polling tick: sample the switches; while any is held, stop; else
      encode the ledger and, when the chord is non-empty, emit it and start
      a fresh ledger. */
  function TickSpec(ledger: seq<int>, pressed: seq<bool>, now: int, debug: bool): (s: Step)
    requires |ledger| == Keys && |pressed| == Keys
    ensures |s.ledger| == Keys
  {
    var stamped := Stamp(ledger, pressed, now);
    if CountPressed(pressed) != 0 then Step(stamped, None)
    else
      var m := Mask(stamped, now);
      if m == 0 then Step(stamped, None)
      else Step(ZeroLedger(), Some(Emit(m, debug)))
  }

  /** A sampling pass with every switch released. */
  function NoPress(): (p: seq<bool>)
    ensures |p| == Keys && CountPressed(p) == 0
  {
    seq(Keys, _ => false)
  }
}
