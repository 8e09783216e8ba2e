/** The firmware's per-tick code: `logPress`, `buildState`,
    `buildStateDebug` and the body of the polling loop, each proved against
    the functions of module Chord. */
module Firmware {
  import opened Chord
  import opened ChordLemmas

  /** `logPress`: when the switch reads pressed, stamp `now` into its slot
      and report one active switch; otherwise leave the slot alone. */
  method LogPress(buf: array<int>, i: nat, mark: bool, now: int) returns (n: uint8)
    requires i < buf.Length
    modifies buf
    ensures n == if mark then 1 else 0
    ensures buf[i] == if mark then now else old(buf[i])
    ensures forall j :: 0 <= j < buf.Length && j != i ==> buf[j] == old(buf[j])
  {
    if !mark {
      return 0;
    }
    buf[i] := now;
    return 1;
  }

  /** `buildState`: OR the bit 7-i of every slot not before the threshold. */
  method BuildState(buf: array<int>, now: int) returns (state: bv8)
    requires buf.Length == Keys
    ensures state == Mask(buf[..], now)
  {
    var threshold := Threshold(now);
    state := 0;
    for i := 0 to Keys
      invariant state == PrefixMask(buf[..], now, i)
    {
      if Before(buf[i], threshold) {
        continue;
      }
      state := state | Bit(i);
    }
  }

  /** `buildStateDebug`: one ASCII digit per slot, and whether any is '1'.
      The text spells out the byte `buildState` computes from the same
      ledger, and `has` holds exactly when that byte is non-zero. */
  method BuildStateDebug(buf: array<int>, now: int) returns (state: array<bv8>, has: bool)
    requires buf.Length == Keys
    ensures state[..] == Render(Mask(buf[..], now))
    ensures has <==> Mask(buf[..], now) != 0
  {
    var threshold := Threshold(now);
    state := new bv8[Keys];
    has := false;
    for i := 0 to Keys
      invariant forall j :: 0 <= j < i ==> state[j] == if InWindow(buf[j], now) then Ascii1 else Ascii0
      invariant has <==> exists j :: 0 <= j < i && InWindow(buf[j], now)
    {
      if Before(buf[i], threshold) {
        state[i] := Ascii0;
      } else {
        state[i] := Ascii1;
        has := true;
      }
    }
    MaskZeroIff(buf[..], now);
    assert state[..] == Render(Mask(buf[..], now));
  }

  /** The state of the polling loop: the press ledger, plus the diagnostic
      switch fixed at build time. */
  class Keeb {
    const debug: bool
    var buf: array<int>

    ghost predicate Valid()
      reads this
    {
      buf.Length == Keys
    }

    constructor (debug: bool)
      ensures Valid() && fresh(buf)
      ensures this.debug == debug && buf[..] == ZeroLedger()
    {
      this.debug := debug;
      buf := new int[Keys](_ => ZeroTime);
    }

    /** The sampling loop: log every switch's reading and count the pressed
        ones. The count never exceeds 8, so the uint8 never wraps. */
    method Sample(pressed: seq<bool>, now: int) returns (keyCount: uint8)
      requires Valid() && |pressed| == Keys
      modifies buf
      ensures keyCount as int == CountPressed(pressed)
      ensures buf[..] == Stamp(old(buf[..]), pressed, now)
    {
      keyCount := 0;
      for i := 0 to Keys
        invariant keyCount as int == CountPressed(pressed[..i])
        invariant forall j :: 0 <= j < i ==> buf[j] == if pressed[j] then now else old(buf[j])
        invariant forall j :: i <= j < Keys ==> buf[j] == old(buf[j])
      {
        var n := LogPress(buf, i, pressed[i], now);
        assert pressed[..i + 1][..i] == pressed[..i];
        keyCount := keyCount + n;
      }
      assert pressed[..Keys] == pressed;
    }

    /** One polling tick at time `now`, with `pressed` the readings of the
        eight switches; returns what is written to the HID endpoint. */
    method Tick(pressed: seq<bool>, now: int) returns (out: Option<Report>)
      requires Valid() && |pressed| == Keys
      modifies this, buf
      ensures Valid()
      ensures buf == old(buf) || fresh(buf)
      ensures var s := TickSpec(old(buf[..]), pressed, now, debug);
        buf[..] == s.ledger && out == s.out
    {
      var keyCount := Sample(pressed, now);
      if keyCount != 0 {
        return None;
      }
      if debug {
        var bits, write := BuildStateDebug(buf, now);
        if !write {
          return None;
        }
        out := Some(TextReport(bits[..]));
      } else {
        var state := BuildState(buf, now);
        if state == 0 {
          return None;
        }
        out := Some(ByteReport(state));
      }
      buf := new int[Keys](_ => ZeroTime);
    }
  }
}
