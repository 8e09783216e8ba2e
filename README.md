# bin-keeb chord resolution, modelled in Dafny

bin-keeb is firmware for an eight-switch chord keyboard. It polls the
switches every 10 ms. For every switch that reads pressed, it stamps the
current time into that switch's slot of an eight-slot press ledger. Once no
switch is held, it packs the switches pressed within the last 50 ms into one
byte, with switch `i` at bit `7-i`. If that byte is non-zero, it writes the
byte to the USB HID endpoint and starts a fresh ledger. In diagnostic mode it
writes the same decision as eight ASCII digits instead.

The model has three modules:

- `Chord` (`chord.dfy`) holds the decision as pure functions:
  - the ledger `Stamp` that a sampling pass produces, and the `CountPressed` of a pass;
  - the chord byte `Mask` and the diagnostic text `Render`;
  - one polling tick as a function, `TickSpec`.
- `ChordLemmas` (`chord_lemmas.dfy`) proves properties of these functions:
  - bit order and the inclusive window boundary;
  - agreement between the text and the byte;
  - no emission from a stale or fresh ledger;
  - a reset exactly on emission;
  - scenarios over two, three and four ticks, including switches held on different ticks.
- `Firmware` (`firmware.dfy`) is the imperative code:
  - `LogPress` writes into one ledger slot;
  - `BuildState` and `BuildStateDebug` are the encoding loops;
  - the class `Keeb` owns the ledger as an `array<int>`, with the sampling loop `Sample` and the per-tick body `Tick`.

  `Sample`, `BuildState`, `BuildStateDebug`, `Tick` and the constructor are proved against the functions in `Chord`.
  `LogPress` is specified directly on the array slot it writes.

Time is an integer count of nanoseconds, measured from Go's zero
`time.Time`. So a slot that was never written holds 0, as the zero value of
`make([]time.Time, 8)` does. `Timeout` is 50 000 000. `Before` is strict, so a
press exactly `Timeout` before `now` still counts. A zero slot falls outside
the window only when `now > Timeout`, which is always true of a real clock.
The lemmas about fresh ledgers take this as a hypothesis.

Switch `i` sits at bit `7-i` of the chord byte, most significant bit first
(main.go:98). An unwritten slot is simply the zero time (main.go:34), so the
model has no separate unset tag.

## Model

| member | source | states |
|---|---|---|
| `Firmware.LogPress` | main.go:72-79 | returns 1 and stamps `now` into the slot when the switch reads pressed; returns 0 and leaves the slot unchanged otherwise; no other slot changes |
| `Firmware.Keeb.Sample` | main.go:40-44 | the uint8 `keyCount` equals the number of pressed switches, and the loop's uint8 additions never wrap; the new ledger has `now` in exactly the pressed slots and the old value everywhere else |
| `Chord.CountPressed` | main.go:40-44 | the count of a pass is at most its length, and it is zero exactly when no switch is pressed |
| `Chord.Stamp` | main.go:42-44 | after a sampling pass at `now`, each pressed switch's slot holds `now` and every other slot keeps its old value |
| `ChordLemmas.StampWithoutPressKeepsLedger` | main.go:42-44 | a pass with nothing pressed leaves the ledger as it was |
| `ChordLemmas.BeforeIsStrict` | main.go:94 | `Before` is strict: no instant is before itself, and two instants are never each before the other |
| `Chord.Threshold` | main.go:91 | the threshold is exactly `Timeout` before `now`, and strictly before it |
| `Chord.InWindow` | main.go:94-98 | a slot counts toward the chord exactly when at most `Timeout` has passed since its timestamp |
| `Chord.Bit` | main.go:98 | the bit of switch `i` is `1 << (7-i)` |
| `Chord.PrefixMask` | main.go:93-99 | after the first `k` slots, bit `7-i` is set exactly when `i < k` and slot `i` is not before `now - Timeout` |
| `Chord.Mask` | main.go:90-101 | bit `7-i` of the chord byte is set exactly when slot `i` is not strictly before `now - Timeout` |
| `Firmware.BuildState` | main.go:90-101 | the byte the OR loop builds is the chord byte `Mask` of the ledger |
| `ChordLemmas.WindowBoundary` | main.go:91-94 | because `Before` is strict (main.go:94), a press exactly `Timeout` before `now` sets its bit; one a nanosecond earlier does not |
| `ChordLemmas.MaskOfFirstSwitch` | main.go:98 | only switch 0 in the window gives `0b10000000` |
| `ChordLemmas.MaskOfLastSwitch` | main.go:98 | only switch 7 in the window gives `0b00000001` |
| `ChordLemmas.MaskOfFirstAndLastSwitch` | main.go:98 | switches 0 and 7 in the window give `0b10000001` |
| `ChordLemmas.MaskZeroIff` | main.go:93-96 | the chord byte is zero exactly when every slot is before the threshold |
| `Firmware.BuildStateDebug` | main.go:106-121 | the eight bytes are the ASCII digits of the byte `buildState` computes from the same ledger (`'1'` at index `i` exactly when bit `7-i` is set); `has` holds exactly when that byte is non-zero |
| `Chord.Render` | main.go:111-117 | the text has eight bytes; byte `i` is `'1'` exactly when bit `7-i` is set and `'0'` exactly when it is clear |
| `ChordLemmas.RenderShowsChord` | main.go:109-118 | the diagnostic text holds a `'1'` exactly when the chord byte is non-zero |
| `ChordLemmas.RenderInjective` | main.go:109-118 | distinct chord bytes give distinct diagnostic texts |
| `ChordLemmas.RenderFirstAndLast` | main.go:109-118 | the text for switches 0 and 7 is `"10000001"` |
| `Chord.ZeroLedger` | main.go:34 | a fresh ledger has eight slots, all at the zero time |
| `Chord.Emit` | main.go:51-65 | the byte mode writes the chord byte itself; the diagnostic mode writes eight digits, `'1'` exactly at the set bits and `'0'` exactly at the clear bits |
| `Chord.TickSpec` | main.go:40-67 | one tick as a function of the ledger, the readings and `now`; the new ledger keeps eight slots (its behaviour is stated by the lemmas below) |
| `Firmware.Keeb.constructor` | main.go:34 | the driver starts with a fresh eight-slot ledger of zero times |
| `Firmware.Keeb.Tick` | main.go:40-67 | the new ledger and the written report are those of `TickSpec` on the old ledger; the ledger is either the same array or a freshly allocated one |
| `ChordLemmas.TickWhilePressed` | main.go:40-49 | while any switch is held, nothing is encoded or written, and the only change is the new timestamps |
| `ChordLemmas.TickOnRelease` | main.go:51-67 | with every switch released, a report is written exactly when some slot is in the window; the report is the ledger's chord byte (or its text), and the ledger is reset exactly then |
| `ChordLemmas.TickResetsOnlyOnEmit` | main.go:47-67 | a tick that writes resets the ledger and had nothing pressed; a tick that does not write keeps the stamped ledger; a written byte is never zero |
| `ChordLemmas.DebugAgreesWithByte` | main.go:51-65 | diagnostic and byte mode leave the same ledger and write on the same ticks; the text spells out the byte |
| `ChordLemmas.StaleLedgerEmitsNothing` | main.go:59-62 | a ledger whose slots are all older than the window writes nothing and is not reset |
| `ChordLemmas.EmptyLedgerEmitsNothing` | main.go:59-62 | a fresh ledger writes nothing once the clock is more than one window past the zero time |
| `ChordLemmas.NoRepeatAfterEmit` | main.go:64-67 | right after a write, an all-released tick writes nothing |
| `ChordLemmas.PressThenRelease` | main.go:37-68 | from a fresh ledger, holding switches at `t` and releasing all of them at most one window later writes exactly the chord of the held switches and resets the ledger |
| `ChordLemmas.StaggeredChord` | main.go:37-68 | from a fresh ledger, switches held on two successive ticks and released at most one window after the first tick form one chord: bit `7-i` is set exactly when switch `i` was held on either tick, and the ledger is reset |
| `ChordLemmas.StaleSwitchExcluded` | main.go:37-68 | a switch held only on an earlier tick, more than one window before the release, has its bit clear even though another switch was held after it |
| `ChordLemmas.RepeatedChordIsIdentical` | main.go:37-68 | the same press and release pattern repeated twice writes two identical reports |

## Left out

- Pin setup and reads (`initButtons`, `Configure`, `Get`) are hardware I/O. Each tick takes the eight readings as a `seq<bool>`.
- The USB HID transport (`keyboard.Port`, `Write`, `WriteByte`) is left out. A tick returns the report it would write, or `None`.
- `time.Sleep` and the endless loop are scheduling. The model is one tick, and the lemmas chain two, three and four ticks.
- `time.Now()` becomes the `now` parameter, one value per tick.
  - In Go, every `logPress` call and the encoder each read the clock separately.
  - The encoder only runs on a tick where no slot was stamped, so the sampling instant never reaches the mask.
  - What the single value does lose is the microsecond differences between the stamps of switches held in the same tick.
- Go's `time.Time` also carries a monotonic reading. The model compares instants on a single integer timeline.
- The GPIO pin list contributes only the number of switches, 8.
- `Firmware.BuildStateDebug`: does not promise that the returned array is freshly allocated. The callers only read it.
- `Chord.TickSpec`: its own contract states only the ledger length. Its behaviour is stated by the `ChordLemmas` tick lemmas and by `Firmware.Keeb.Tick`.
