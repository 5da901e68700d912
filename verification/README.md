# Chip select for a shared SPI bus

A model of `ChipSelect.h` of the DmaSpi library. Every device on a shared
SPI bus has a chip select object with two operations, `select()` and
`deselect()`. A driver wraps each transfer between them. There are three
implementations:

- `DummyChipSelect` does nothing.
- `DebugChipSelect` prints `Debug CS: select()` or `Debug CS: deselect()`
  on the serial port.
- `ActiveLowChipSelect` owns a pin and SPI settings. The constructor makes
  the pin an output and drives it high. `select()` begins an SPI
  transaction with the settings and then drives the pin low. `deselect()`
  drives the pin high and then ends the transaction.

The pin, SPI and serial drivers are not modelled. Each call into them is an
`Event` appended to the instance's `trace`: `ConfigureOutput`, `WriteLevel`,
`BeginTransaction`, `EndTransaction` and `Print`. The state of the hardware
is computed from the trace: `LastLevel` gives the pin's level, `TxOpen`
says whether a transaction is open, and `PinLevels` gives the history of
levels written to the pin.

Files:

- `trace.dfy` (module `Trace`) holds the event vocabulary, the derived
  state, and `WellBracketed`, which says no transaction is ever begun while
  one is open or ended while none is.
- `protocol.dfy` (module `Protocol`) is a pure reference model.
  `Run(v, calls)` is the trace an instance of variant `v` has after its
  constructor and a sequence of calls. The properties of the three
  variants are proved as lemmas about `Run`.
- `chipselect.dfy` (module `ChipSelect`) holds the three classes. Each has
  a mutable `trace` field and a ghost history of the calls made on it.
  `Valid()` says that `trace == Run(variant, calls)`. `pin` and `settings`
  are `const` fields, so they cannot change after construction.
  `AnyChipSelect` stands for the virtual base class `AbstractChipSelect`.
  It is a tagged value over the three classes, and its `Select` and
  `Deselect` dispatch to the one it holds.

No method carries a `requires` against misuse. A second `select()` or a
`deselect()` without a `select()` runs exactly as the code does.
`WellBracketedIffAlternated` states the consequence: the transaction
bracketing is sound exactly when calls alternate, starting with `select()`.

## Model

| member | source | states |
|---|---|---|
| ChipSelect.AnyChipSelect.Select | ChipSelect.h:11-13 | select() through the interface appends that implementation's select events and records the call, for every implementation |
| ChipSelect.AnyChipSelect.Deselect | ChipSelect.h:15-17 | deselect() through the interface appends that implementation's deselect events and records the call |
| ChipSelect.DummyChipSelect.Select | ChipSelect.h:27 | the trace stays empty: no driver call at all |
| ChipSelect.DummyChipSelect.Deselect | ChipSelect.h:29 | the trace stays empty: no driver call at all |
| ChipSelect.DebugChipSelect.Select | ChipSelect.h:37 | appends exactly one event, Print("Debug CS: select()") |
| ChipSelect.DebugChipSelect.Deselect | ChipSelect.h:38 | appends exactly one event, Print("Debug CS: deselect()") |
| ChipSelect.ActiveLowChipSelect.constructor | ChipSelect.h:54-60 | binds pin and settings; the trace is exactly [ConfigureOutput(pin), WriteLevel(pin, 1)], so the line is high and no transaction is open |
| ChipSelect.ActiveLowChipSelect.Select | ChipSelect.h:64-68 | appends exactly [BeginTransaction(settings), WriteLevel(pin, 0)]; afterwards the line is low and a transaction is open; pin and settings are unchanged |
| ChipSelect.ActiveLowChipSelect.Deselect | ChipSelect.h:72-76 | appends exactly [WriteLevel(pin, 1), EndTransaction]; afterwards the line is high and no transaction is open |
| Protocol.DummyIssuesNothing | ChipSelect.h:25-30 | any sequence of calls on the dummy chip select issues no event |
| Protocol.DebugOnlyPrints | ChipSelect.h:35-39 | the debug chip select issues one event per call, and event i is the Print naming call i; so it issues no pin or transaction event |
| Protocol.ActiveLowUsesOnlyItsPinAndSettings | ChipSelect.h:54-79 | every event of an active-low chip select targets its construction-time pin or carries its construction-time settings, and none is a Print |
| Protocol.ActiveLowLayout | ChipSelect.h:54-76 | the trace is the two construction events followed by exactly the two events of each call, in call order |
| Protocol.ActiveLowOrdering | ChipSelect.h:46-76 | every transaction begin is immediately followed by the pin going low and every low write immediately follows a begin; every high write after construction is immediately followed by a transaction end and every end immediately follows a high write |
| Protocol.ActiveLowStateAfter | ChipSelect.h:54-76 | for any calls, after a select() the line is low and a transaction is open; after construction or a deselect() the line is high and no transaction is open |
| Protocol.CallLevels | ChipSelect.h:62-76 | each call writes the pin exactly once: 0 for select(), 1 for deselect() |
| Protocol.ActiveLowPinLevels | ChipSelect.h:54-76 | the level history is 1 from the constructor, then one entry per call: 0 for select() and 1 for deselect() |
| Protocol.WellBracketedIffAlternated | ChipSelect.h:62-76 | the trace never begins a transaction while one is open and never ends one while none is, if and only if the calls alternate starting with select() |
| Protocol.AlternatedLevels | ChipSelect.h:62-76 | under alternated calls the level history is 1, 0, 1, 0, ... with one more entry than there are calls |
| Protocol.PairsReturnToRest | ChipSelect.h:54-76 | after construction and N select/deselect pairs the level history is 1, 0, ..., 1 with 2N+1 entries; the line is high, no transaction is open, and none was nested or unmatched |
| Protocol.IssuedAppend | ChipSelect.h:62-76 | the events of a sequence of calls are the concatenation of each call's events, so repeating the same calls repeats the same events |

## Left out

- The effects of `pinMode`, `digitalWriteFast`, the `SPI` object and `Serial.println` are left out. They live in the board's core libraries, which are not part of this model. Each call is recorded only as an event.
- Each instance records only its own calls. The `SPI` and `Serial` objects are globals shared by every device, and that sharing is not modelled. Neither is the bus arbitration in `SPI.beginTransaction`, which may block until another device releases the bus.
- `SPISettings` is recorded with its clock, bit order and mode. The model only compares settings for equality and never interprets them.
- `Serial.println` also sends a line ending. A `Print` event records only the message argument.
- `pinMode` and `digitalWriteFast` take the pin as an 8-bit value in the core libraries, so `pin_` may be narrowed there. The model records the pin as the 32-bit `unsigned int` that `ChipSelect.h` passes.
- The virtual destructor and the include guards have no behaviour to model.
- The dummy and debug classes get their default constructors from the compiler. In the model each has an explicit constructor that leaves the trace empty.
