/** The chip select classes. Each instance records the driver calls it makes
    in its `trace` field; the ghost `calls` field is the history of select()
    and deselect() calls made on it, and `Valid()` says that the trace is
    exactly what the reference model in module Protocol issues for that
    history. */
module ChipSelect {
  import opened Trace
  import opened Protocol

  /** "Do nothing" chip select. */
  class DummyChipSelect {
    var trace: seq<Event>
    ghost var calls: seq<Call>

    ghost predicate Valid()
      reads this
    {
      trace == Run(DummyCS, calls)
    }

    constructor ()
      ensures Valid() && calls == [] && trace == []
    {
      trace := [];
      calls := [];
    }

    method Select()
      requires Valid()
      modifies this
      ensures Valid() && calls == old(calls) + [SelectCall]
      ensures trace == old(trace) == []
    {
      calls := calls + [SelectCall];
      DummyIssuesNothing(calls);
    }

    method Deselect()
      requires Valid()
      modifies this
      ensures Valid() && calls == old(calls) + [DeselectCall]
      ensures trace == old(trace) == []
    {
      calls := calls + [DeselectCall];
      DummyIssuesNothing(calls);
    }
  }

  /** "Do nothing" chip select that prints a line on each call. */
  class DebugChipSelect {
    var trace: seq<Event>
    ghost var calls: seq<Call>

    ghost predicate Valid()
      reads this
    {
      trace == Run(DebugCS, calls)
    }

    constructor ()
      ensures Valid() && calls == [] && trace == []
    {
      trace := [];
      calls := [];
    }

    method Select()
      requires Valid()
      modifies this
      ensures Valid() && calls == old(calls) + [SelectCall]
      ensures trace == old(trace) + [Print("Debug CS: select()")]
    {
      RunSnoc(DebugCS, calls, SelectCall);
      trace := trace + [Print(SelectMessage)];
      calls := calls + [SelectCall];
    }

    method Deselect()
      requires Valid()
      modifies this
      ensures Valid() && calls == old(calls) + [DeselectCall]
      ensures trace == old(trace) + [Print("Debug CS: deselect()")]
    {
      RunSnoc(DebugCS, calls, DeselectCall);
      trace := trace + [Print(DeselectMessage)];
      calls := calls + [DeselectCall];
    }
  }

  /** Active-low chip select: owns a pin, which it configures as an output,
      and SPI settings, which it applies to the transaction each select()
      begins. The pin is asserted after the transaction begins and
      deasserted before it ends. */
  class ActiveLowChipSelect {
    const pin: Pin
    const settings: SPISettings
    var trace: seq<Event>
    ghost var calls: seq<Call>

    ghost predicate Valid()
      reads this
    {
      trace == Run(ActiveLowCS(pin, settings), calls)
    }

    /** The line starts high (deselected) with no transaction open. */
    constructor (pin: Pin, settings: SPISettings)
      ensures this.pin == pin && this.settings == settings
      ensures trace == [ConfigureOutput(pin), WriteLevel(pin, 1)]
      ensures Valid() && calls == []
      ensures LastLevel(trace, pin) == Some(1) && !TxOpen(trace)
    {
      this.pin := pin;
      this.settings := settings;
      trace := [ConfigureOutput(pin)];
      trace := trace + [WriteLevel(pin, 1)];
      calls := [];
      new;
      ActiveLowStateAfter(pin, settings, []);
    }

    /** Begins the SPI transaction, then drives the pin low. */
    method Select()
      requires Valid()
      modifies this
      ensures Valid() && calls == old(calls) + [SelectCall]
      ensures trace == old(trace) + [BeginTransaction(settings), WriteLevel(pin, 0)]
      ensures LastLevel(trace, pin) == Some(0) && TxOpen(trace)
    {
      RunSnoc(ActiveLowCS(pin, settings), calls, SelectCall);
      trace := trace + [BeginTransaction(settings)];
      trace := trace + [WriteLevel(pin, 0)];
      calls := calls + [SelectCall];
      ActiveLowStateAfter(pin, settings, calls);
    }

    /** Drives the pin high, then ends the SPI transaction. */
    method Deselect()
      requires Valid()
      modifies this
      ensures Valid() && calls == old(calls) + [DeselectCall]
      ensures trace == old(trace) + [WriteLevel(pin, 1), EndTransaction]
      ensures LastLevel(trace, pin) == Some(1) && !TxOpen(trace)
    {
      RunSnoc(ActiveLowCS(pin, settings), calls, DeselectCall);
      trace := trace + [WriteLevel(pin, 1)];
      trace := trace + [EndTransaction];
      calls := calls + [DeselectCall];
      ActiveLowStateAfter(pin, settings, calls);
    }
  }

  /** A reference to some chip select, whichever implementation it is: the
      abstract interface, dispatched by a switch on the implementation. */
  datatype AnyChipSelect =
    | AsDummy(dummy: DummyChipSelect)
    | AsDebug(debug: DebugChipSelect)
    | AsActiveLow(activeLow: ActiveLowChipSelect)
  {
    function Obj(): object {
      match this
      case AsDummy(d) => d
      case AsDebug(d) => d
      case AsActiveLow(a) => a
    }

    function Kind(): Variant {
      match this
      case AsDummy(_) => DummyCS
      case AsDebug(_) => DebugCS
      case AsActiveLow(a) => ActiveLowCS(a.pin, a.settings)
    }

    function Trace(): seq<Event>
      reads Obj()
    {
      match this
      case AsDummy(d) => d.trace
      case AsDebug(d) => d.trace
      case AsActiveLow(a) => a.trace
    }

    ghost function Calls(): seq<Call>
      reads Obj()
    {
      match this
      case AsDummy(d) => d.calls
      case AsDebug(d) => d.calls
      case AsActiveLow(a) => a.calls
    }

    ghost predicate Valid()
      reads Obj()
    {
      Trace() == Run(Kind(), Calls())
    }

    /** select() through the interface: whatever the implementation, the
        call appends that implementation's events for select(). */
    method Select()
      requires Valid()
      modifies Obj()
      ensures Valid() && Calls() == old(Calls()) + [SelectCall]
      ensures Trace() == old(Trace()) + CallEvents(Kind(), SelectCall)
    {
      match this
      case AsDummy(d) => d.Select();
      case AsDebug(d) => d.Select();
      case AsActiveLow(a) => a.Select();
    }

    /** deselect() through the interface. */
    method Deselect()
      requires Valid()
      modifies Obj()
      ensures Valid() && Calls() == old(Calls()) + [DeselectCall]
      ensures Trace() == old(Trace()) + CallEvents(Kind(), DeselectCall)
    {
      match this
      case AsDummy(d) => d.Deselect();
      case AsDebug(d) => d.Deselect();
      case AsActiveLow(a) => a.Deselect();
    }
  }
}
