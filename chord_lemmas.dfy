/** Properties of the chord decision: bit layout, the window boundary, the
    agreement of the diagnostic text with the packed byte, and what a tick
    does to the ledger. */
module ChordLemmas {
  import opened Chord

  /** A chord byte is determined by its eight chord bits. */
  lemma BitsDetermineByte(a: bv8, b: bv8)
    requires forall i :: 0 <= i < Keys ==> (a & Bit(i) != 0 <==> b & Bit(i) != 0)
    ensures a == b
  {
    assert a & Bit(0) != 0 <==> b & Bit(0) != 0;
    assert a & Bit(1) != 0 <==> b & Bit(1) != 0;
    assert a & Bit(2) != 0 <==> b & Bit(2) != 0;
    assert a & Bit(3) != 0 <==> b & Bit(3) != 0;
    assert a & Bit(4) != 0 <==> b & Bit(4) != 0;
    assert a & Bit(5) != 0 <==> b & Bit(5) != 0;
    assert a & Bit(6) != 0 <==> b & Bit(6) != 0;
    assert a & Bit(7) != 0 <==> b & Bit(7) != 0;
  }

  /** The chord byte is zero exactly when no slot is inside the window. */
  lemma MaskZeroIff(ledger: seq<int>, now: int)
    requires |ledger| == Keys
    ensures Mask(ledger, now) == 0 <==> forall i :: 0 <= i < Keys ==> !InWindow(ledger[i], now)
  {
    if forall i :: 0 <= i < Keys ==> !InWindow(ledger[i], now) {
      BitsDetermineByte(Mask(ledger, now), 0);
    }
  }

  /** `Before` is strict: no instant is before itself, and two instants are
      never each before the other. */
  lemma BeforeIsStrict(t: int, u: int)
    ensures !Before(t, t)
    ensures Before(t, u) ==> !Before(u, t)
  {
  }

  /** The window is inclusive: a press exactly `Timeout` before `now` counts,
      one nanosecond earlier does not. */
  lemma WindowBoundary(ledger: seq<int>, now: int, i: int)
    requires |ledger| == Keys && 0 <= i < Keys
    ensures ledger[i] == now - Timeout ==> Mask(ledger, now) & Bit(i) != 0
    ensures ledger[i] == now - Timeout - 1 ==> Mask(ledger, now) & Bit(i) == 0
  {
  }

  /** Only the first switch in the window gives 0b10000000. */
  lemma MaskOfFirstSwitch(ledger: seq<int>, now: int)
    requires |ledger| == Keys
    requires InWindow(ledger[0], now)
    requires forall i :: 1 <= i < Keys ==> !InWindow(ledger[i], now)
    ensures Mask(ledger, now) == 0x80
  {
    BitsDetermineByte(Mask(ledger, now), 0x80);
  }

  /** Only the last switch in the window gives 0b00000001. */
  lemma MaskOfLastSwitch(ledger: seq<int>, now: int)
    requires |ledger| == Keys
    requires InWindow(ledger[7], now)
    requires forall i :: 0 <= i < 7 ==> !InWindow(ledger[i], now)
    ensures Mask(ledger, now) == 0x01
  {
    BitsDetermineByte(Mask(ledger, now), 0x01);
  }

  /** The first and the last switch in the window give 0b10000001. */
  lemma MaskOfFirstAndLastSwitch(ledger: seq<int>, now: int)
    requires |ledger| == Keys
    requires InWindow(ledger[0], now) && InWindow(ledger[7], now)
    requires forall i :: 1 <= i < 7 ==> !InWindow(ledger[i], now)
    ensures Mask(ledger, now) == 0x81
  {
    BitsDetermineByte(Mask(ledger, now), 0x81);
  }

  /** The diagnostic text holds a '1' exactly when the chord byte is non-zero. */
  lemma RenderShowsChord(m: bv8)
    ensures (exists i :: 0 <= i < Keys && Render(m)[i] == Ascii1) <==> m != 0
  {
    if m != 0 && forall i :: 0 <= i < Keys ==> Render(m)[i] != Ascii1 {
      BitsDetermineByte(m, 0);
    }
  }

  /** Different chords give different diagnostic texts. */
  lemma RenderInjective(a: bv8, b: bv8)
    requires Render(a) == Render(b)
    ensures a == b
  {
    BitsDetermineByte(a, b);
  }

  /** The diagnostic text of switches 0 and 7 is "10000001". */
  lemma RenderFirstAndLast()
    ensures Render(0x81) == [Ascii1, Ascii0, Ascii0, Ascii0, Ascii0, Ascii0, Ascii0, Ascii1]
  {
  }

  /** A sampling pass with nothing pressed leaves the ledger as it was. */
  lemma StampWithoutPressKeepsLedger(ledger: seq<int>, pressed: seq<bool>, now: int)
    requires |ledger| == |pressed|
    ensures CountPressed(pressed) == 0 ==> Stamp(ledger, pressed, now) == ledger
  {
  }

  /** While any switch is held, a tick only records timestamps. */
  lemma TickWhilePressed(ledger: seq<int>, pressed: seq<bool>, now: int, debug: bool)
    requires |ledger| == Keys && |pressed| == Keys
    requires exists i :: 0 <= i < Keys && pressed[i]
    ensures TickSpec(ledger, pressed, now, debug) == Step(Stamp(ledger, pressed, now), None)
  {
  }

  /** A tick with every switch released emits exactly when some slot is in
      the window, emits the ledger's chord byte, and resets the ledger
      exactly when it emits. */
  lemma TickOnRelease(ledger: seq<int>, now: int, debug: bool)
    requires |ledger| == Keys
    ensures var s := TickSpec(ledger, NoPress(), now, debug);
      && (s.out.Some? <==> exists i :: 0 <= i < Keys && InWindow(ledger[i], now))
      && (s.out.Some? ==> s.out.value == Emit(Mask(ledger, now), debug) && s.ledger == ZeroLedger())
      && (s.out.None? ==> s.ledger == ledger)
  {
    StampWithoutPressKeepsLedger(ledger, NoPress(), now);
    MaskZeroIff(ledger, now);
  }

  /** The ledger is reset exactly when a chord is emitted, and an emitted
      byte is never zero. */
  lemma TickResetsOnlyOnEmit(ledger: seq<int>, pressed: seq<bool>, now: int, debug: bool)
    requires |ledger| == Keys && |pressed| == Keys
    ensures var s := TickSpec(ledger, pressed, now, debug);
      && (s.out.Some? ==> s.ledger == ZeroLedger() && CountPressed(pressed) == 0)
      && (s.out.None? ==> s.ledger == Stamp(ledger, pressed, now))
      && (s.out.Some? && !debug ==> s.out.value.ByteReport? && s.out.value.chord != 0)
  {
  }

  /** The diagnostic mode and the byte mode take the same decision: they
      leave the same ledger, emit on the same ticks, and the text spells out
      the emitted byte. */
  lemma DebugAgreesWithByte(ledger: seq<int>, pressed: seq<bool>, now: int)
    requires |ledger| == Keys && |pressed| == Keys
    ensures var d := TickSpec(ledger, pressed, now, true);
      var b := TickSpec(ledger, pressed, now, false);
      && d.ledger == b.ledger
      && (d.out.Some? <==> b.out.Some?)
      && (b.out.Some? ==> d.out.value == TextReport(Render(b.out.value.chord)))
  {
  }

  /** A ledger whose every slot is older than the window emits nothing and
      is left as it was. */
  lemma StaleLedgerEmitsNothing(ledger: seq<int>, now: int, debug: bool)
    requires |ledger| == Keys
    requires forall i :: 0 <= i < Keys ==> Before(ledger[i], Threshold(now))
    ensures TickSpec(ledger, NoPress(), now, debug) == Step(ledger, None)
  {
    TickOnRelease(ledger, now, debug);
  }

  /** A fresh ledger emits nothing, as long as the clock is more than one
      window past the zero time (so the zero time is before the threshold). */
  lemma EmptyLedgerEmitsNothing(now: int, debug: bool)
    requires now > Timeout
    ensures TickSpec(ZeroLedger(), NoPress(), now, debug) == Step(ZeroLedger(), None)
  {
    StaleLedgerEmitsNothing(ZeroLedger(), now, debug);
  }

  /** Right after an emission, an all-released tick emits nothing. */
  lemma NoRepeatAfterEmit(ledger: seq<int>, pressed: seq<bool>, now: int, later: int, debug: bool)
    requires |ledger| == Keys && |pressed| == Keys
    requires TickSpec(ledger, pressed, now, debug).out.Some?
    requires later > Timeout
    ensures TickSpec(TickSpec(ledger, pressed, now, debug).ledger, NoPress(), later, debug).out == None
  {
    TickResetsOnlyOnEmit(ledger, pressed, now, debug);
    EmptyLedgerEmitsNothing(later, debug);
  }

  /** Starting from a fresh ledger, holding a set of switches at time `t` and
      releasing them all at `r`, no more than one window later, emits exactly
      the chord of the held switches and resets the ledger. */
  lemma PressThenRelease(pressed: seq<bool>, t: int, r: int, debug: bool)
    requires |pressed| == Keys
    requires exists i :: 0 <= i < Keys && pressed[i]
    requires Timeout < r <= t + Timeout
    ensures var held := TickSpec(ZeroLedger(), pressed, t, debug);
      var released := TickSpec(held.ledger, NoPress(), r, debug);
      && held.out == None
      && released.ledger == ZeroLedger()
      && released.out.Some?
      && released.out.value == Emit(Mask(held.ledger, r), debug)
      && forall i :: 0 <= i < Keys ==> (Mask(held.ledger, r) & Bit(i) != 0 <==> pressed[i])
  {
    var held := TickSpec(ZeroLedger(), pressed, t, debug);
    StampWithoutPressKeepsLedger(ZeroLedger(), pressed, t);
    assert held.ledger == Stamp(ZeroLedger(), pressed, t);
    TickOnRelease(held.ledger, r, debug);
  }

  /** Repeating the same press/release pattern from a fresh ledger gives the
      same emission each time, whatever the exact instants. */
  lemma RepeatedChordIsIdentical(pressed: seq<bool>, t1: int, r1: int, t2: int, r2: int, debug: bool)
    requires |pressed| == Keys
    requires exists i :: 0 <= i < Keys && pressed[i]
    requires Timeout < r1 <= t1 + Timeout
    requires Timeout < r2 <= t2 + Timeout
    ensures var first := TickSpec(TickSpec(ZeroLedger(), pressed, t1, debug).ledger, NoPress(), r1, debug);
      var second := TickSpec(TickSpec(first.ledger, pressed, t2, debug).ledger, NoPress(), r2, debug);
      first == second
  {
    PressThenRelease(pressed, t1, r1, debug);
    var first := TickSpec(TickSpec(ZeroLedger(), pressed, t1, debug).ledger, NoPress(), r1, debug);
    assert first.ledger == ZeroLedger();
    PressThenRelease(pressed, t2, r2, debug);
    var m1 := Mask(TickSpec(ZeroLedger(), pressed, t1, debug).ledger, r1);
    var m2 := Mask(TickSpec(ZeroLedger(), pressed, t2, debug).ledger, r2);
    BitsDetermineByte(m1, m2);
  }

  /** Switches held on different ticks join one chord: from a fresh ledger,
      holding `p1` at `t1` and then `p2` at `t2`, and releasing everything at
      `r`, at most one window after `t1`, sets exactly the bits of the
      switches held on either tick. */
  lemma StaggeredChord(p1: seq<bool>, t1: int, p2: seq<bool>, t2: int, r: int, debug: bool)
    requires |p1| == Keys && |p2| == Keys
    requires exists i :: 0 <= i < Keys && p1[i]
    requires exists i :: 0 <= i < Keys && p2[i]
    requires t1 <= t2 && Timeout < r <= t1 + Timeout
    ensures var first := TickSpec(ZeroLedger(), p1, t1, debug);
      var second := TickSpec(first.ledger, p2, t2, debug);
      var released := TickSpec(second.ledger, NoPress(), r, debug);
      && first.out == None && second.out == None
      && released.ledger == ZeroLedger()
      && released.out == Some(Emit(Mask(second.ledger, r), debug))
      && forall i :: 0 <= i < Keys ==> (Mask(second.ledger, r) & Bit(i) != 0 <==> p1[i] || p2[i])
  {
    TickWhilePressed(ZeroLedger(), p1, t1, debug);
    var first := TickSpec(ZeroLedger(), p1, t1, debug);
    TickWhilePressed(first.ledger, p2, t2, debug);
    var second := TickSpec(first.ledger, p2, t2, debug);
    assert forall i :: 0 <= i < Keys ==> (InWindow(second.ledger[i], r) <==> p1[i] || p2[i]);
    TickOnRelease(second.ledger, r, debug);
  }

  /** A switch pressed only on an earlier held tick, more than one window
      before the release, is left out of the chord even though another
      switch was still held after it. */
  lemma StaleSwitchExcluded(p1: seq<bool>, t1: int, p2: seq<bool>, t2: int, r: int, debug: bool, i: int)
    requires |p1| == Keys && |p2| == Keys && 0 <= i < Keys
    requires exists j :: 0 <= j < Keys && p1[j]
    requires exists j :: 0 <= j < Keys && p2[j]
    requires p1[i] && !p2[i]
    requires Timeout < r && Before(t1, Threshold(r))
    ensures var first := TickSpec(ZeroLedger(), p1, t1, debug);
      var second := TickSpec(first.ledger, p2, t2, debug);
      Mask(second.ledger, r) & Bit(i) == 0
  {
    TickWhilePressed(ZeroLedger(), p1, t1, debug);
    var first := TickSpec(ZeroLedger(), p1, t1, debug);
    TickWhilePressed(first.ledger, p2, t2, debug);
    var second := TickSpec(first.ledger, p2, t2, debug);
    assert second.ledger[i] == t1;
  }
}
