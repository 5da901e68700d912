/** The calls a chip select makes into the board's pin, SPI and serial
    drivers, recorded as events, and the hardware state those events imply.

    The drivers themselves (pinMode, digitalWriteFast, the SPI object,
    Serial) are outside the model: each call becomes one Event appended to
    a trace, and the pin level and the transaction status are functions of
    that trace. */
module Trace {

  datatype Option<T> = None | Some(value: T)

  /** A pin number, held as an `unsigned int` (32 bits on the target). */
  type Pin = x: int | 0 <= x < 0x1_0000_0000

  /** A digital output level: 0 is low (asserted for an active-low line),
      1 is high. */
  type Level = x: int | 0 <= x <= 1

  datatype BitOrder = LsbFirst | MsbFirst

  /** SPI bus settings (clock rate, bit order, data mode). The model never
      interprets them; it only compares them for equality. */
  datatype SPISettings = SPISettings(clock: nat, bitOrder: BitOrder, dataMode: nat)

  /** One call into an external driver. */
  datatype Event =
    | ConfigureOutput(pin: Pin)                // pinMode(pin, OUTPUT)
    | WriteLevel(pin: Pin, level: Level)       // digitalWriteFast(pin, level)
    | BeginTransaction(settings: SPISettings)  // SPI.beginTransaction(settings)
    | EndTransaction                           // SPI.endTransaction()
    | Print(msg: string)                       // Serial.println(msg)

  predicate IsWriteTo(e: Event, pin: Pin) {
    e.WriteLevel? && e.pin == pin
  }

  /** The level most recently written to `pin`, or None if it never was. */
  function LastLevel(t: seq<Event>, pin: Pin): Option<Level>
  {
    if t == [] then None
    else if IsWriteTo(t[|t| - 1], pin) then Some(t[|t| - 1].level)
    else LastLevel(t[..|t| - 1], pin)
  }

  /** Whether the most recent transaction event opened (Some(true)) or
      closed (Some(false)) the transaction; None if there was none. */
  function TxState(t: seq<Event>): Option<bool>
  {
    if t == [] then None
    else match t[|t| - 1]
      case BeginTransaction(_) => Some(true)
      case EndTransaction => Some(false)
      case _ => TxState(t[..|t| - 1])
  }

  /** A transaction is open after `t`. */
  predicate TxOpen(t: seq<Event>) {
    TxState(t) == Some(true)
  }

  /** Every level written to `pin`, in the order written. */
  function PinLevels(t: seq<Event>, pin: Pin): (r: seq<Level>)
    ensures |r| <= |t|
  {
    if t == [] then []
    else PinLevels(t[..|t| - 1], pin)
         + (if IsWriteTo(t[|t| - 1], pin) then [t[|t| - 1].level] else [])
  }

  /** A transaction is begun only when none is open and ended only when one
      is: no nested and no unmatched transaction. */
  predicate WellBracketed(t: seq<Event>) {
    forall k | 0 <= k < |t| ::
      (t[k].BeginTransaction? ==> !TxOpen(t[..k])) &&
      (t[k].EndTransaction? ==> TxOpen(t[..k]))
  }

  /** The last level written is the last entry of the level history. */
  lemma {:induction false} LastLevelIsLastWritten(t: seq<Event>, pin: Pin)
    ensures var h := PinLevels(t, pin);
            LastLevel(t, pin) == if h == [] then None else Some(h[|h| - 1])
  {
    if t != [] {
      LastLevelIsLastWritten(t[..|t| - 1], pin);
    }
  }

  lemma {:induction false} LastLevelAppend(a: seq<Event>, b: seq<Event>, pin: Pin)
    ensures LastLevel(a + b, pin) ==
            if LastLevel(b, pin).Some? then LastLevel(b, pin) else LastLevel(a, pin)
  {
    if b == [] {
      assert a + b == a;
    } else {
      assert (a + b)[..|a + b| - 1] == a + b[..|b| - 1];
      LastLevelAppend(a, b[..|b| - 1], pin);
    }
  }

  lemma {:induction false} TxStateAppend(a: seq<Event>, b: seq<Event>)
    ensures TxState(a + b) == if TxState(b).Some? then TxState(b) else TxState(a)
  {
    if b == [] {
      assert a + b == a;
    } else {
      assert (a + b)[..|a + b| - 1] == a + b[..|b| - 1];
      TxStateAppend(a, b[..|b| - 1]);
    }
  }

  lemma {:induction false} PinLevelsAppend(a: seq<Event>, b: seq<Event>, pin: Pin)
    ensures PinLevels(a + b, pin) == PinLevels(a, pin) + PinLevels(b, pin)
  {
    if b == [] {
      assert a + b == a;
    } else {
      assert (a + b)[..|a + b| - 1] == a + b[..|b| - 1];
      PinLevelsAppend(a, b[..|b| - 1], pin);
    }
  }

  /** Extending a trace by one event keeps it well bracketed exactly when the
      trace was and the new event respects the open transaction. */
  lemma WellBracketedSnoc(t: seq<Event>, e: Event)
    ensures WellBracketed(t + [e]) <==>
            WellBracketed(t) &&
            (e.BeginTransaction? ==> !TxOpen(t)) &&
            (e.EndTransaction? ==> TxOpen(t))
  {
    var u := t + [e];
    assert u[..|t|] == t;
    forall k | 0 <= k < |t|
      ensures u[k] == t[k] && u[..k] == t[..k]
    {
    }
  }
}
