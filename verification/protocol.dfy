/** What each chip select variant issues, as a pure function of the calls
    made on it, and the properties of those traces.

    `Run(v, calls)` is the trace an instance of variant `v` has produced
    after its constructor and then `calls`; the classes in module ChipSelect
    keep their `trace` field equal to it. */
module Protocol {
  import opened Trace

  /** The two operations of the chip select interface. */
  datatype Call = SelectCall | DeselectCall

  /** The three implementations of the interface; the active-low one binds a
      pin and SPI settings at construction. */
  datatype Variant =
    | DummyCS
    | DebugCS
    | ActiveLowCS(pin: Pin, settings: SPISettings)

  const SelectMessage: string := "Debug CS: select()"
  const DeselectMessage: string := "Debug CS: deselect()"

  /** The line the debug variant prints for a call. */
  function Message(c: Call): string {
    match c
    case SelectCall => SelectMessage
    case DeselectCall => DeselectMessage
  }

  /** Events issued by the constructor: the active-low variant makes its pin
      an output and then drives it high; the others do nothing. */
  function InitEvents(v: Variant): seq<Event> {
    match v
    case DummyCS => []
    case DebugCS => []
    case ActiveLowCS(pin, _) => [ConfigureOutput(pin), WriteLevel(pin, 1)]
  }

  /** Events issued by one call. The active-low variant asserts its pin only
      after beginning the transaction, and deasserts it before ending it. */
  function CallEvents(v: Variant, c: Call): seq<Event> {
    match v
    case DummyCS => []
    case DebugCS => [Print(Message(c))]
    case ActiveLowCS(pin, settings) =>
      match c
      case SelectCall => [BeginTransaction(settings), WriteLevel(pin, 0)]
      case DeselectCall => [WriteLevel(pin, 1), EndTransaction]
  }

  /** Events issued by a sequence of calls, in order. */
  function Issued(v: Variant, calls: seq<Call>): seq<Event> {
    if calls == [] then []
    else Issued(v, calls[..|calls| - 1]) + CallEvents(v, calls[|calls| - 1])
  }

  /** The whole trace of an instance: construction, then the calls. */
  function Run(v: Variant, calls: seq<Call>): seq<Event> {
    InitEvents(v) + Issued(v, calls)
  }

  /** The most recent call was select(): the chip is inside a bracket. */
  predicate Selected(calls: seq<Call>) {
    |calls| > 0 && calls[|calls| - 1] == SelectCall
  }

  /** Calls strictly alternate, starting with select(). */
  predicate Alternated(calls: seq<Call>) {
    forall i | 0 <= i < |calls| :: calls[i] == if i % 2 == 0 then SelectCall else DeselectCall
  }

  /** n select()/deselect() pairs. */
  function Pairs(n: nat): seq<Call> {
    if n == 0 then [] else Pairs(n - 1) + [SelectCall, DeselectCall]
  }

  /** Predicate on one event: it touches only the given pin and settings. */
  predicate UsesOnly(pin: Pin, settings: SPISettings, e: Event) {
    match e
    case ConfigureOutput(p) => p == pin
    case WriteLevel(p, _) => p == pin
    case BeginTransaction(s) => s == settings
    case EndTransaction => true
    case Print(_) => false
  }

  // ---------------------------------------------------------------------
  // Structure of Run

  lemma RunSnoc(v: Variant, calls: seq<Call>, c: Call)
    ensures Run(v, calls + [c]) == Run(v, calls) + CallEvents(v, c)
  {
    assert (calls + [c])[..|calls|] == calls;
  }

  /** Each call's events depend only on that call: the events of two runs of
      calls are the events of the first followed by those of the second, so
      repeating a sequence of calls repeats its events. */
  lemma {:induction false} IssuedAppend(v: Variant, a: seq<Call>, b: seq<Call>)
    ensures Issued(v, a + b) == Issued(v, a) + Issued(v, b)
  {
    if b == [] {
      assert a + b == a;
    } else {
      var b' := b[..|b| - 1];
      assert (a + b)[..|a + b| - 1] == a + b';
      assert (a + b)[|a + b| - 1] == b[|b| - 1];
      IssuedAppend(v, a, b');
    }
  }

  // ---------------------------------------------------------------------
  // The dummy and debug variants

  /** The dummy chip select never calls any driver. */
  lemma {:induction false} DummyIssuesNothing(calls: seq<Call>)
    ensures Run(DummyCS, calls) == []
  {
    if calls != [] {
      DummyIssuesNothing(calls[..|calls| - 1]);
    }
  }

  /** The debug chip select prints exactly one line per call, naming the
      call, and touches no pin and no transaction. */
  lemma {:induction false} DebugOnlyPrints(calls: seq<Call>)
    ensures |Run(DebugCS, calls)| == |calls|
    ensures forall i | 0 <= i < |calls| :: Run(DebugCS, calls)[i] == Print(Message(calls[i]))
  {
    if calls != [] {
      var init := calls[..|calls| - 1];
      DebugOnlyPrints(init);
      RunSnoc(DebugCS, init, calls[|calls| - 1]);
      assert calls == init + [calls[|calls| - 1]];
    }
  }

  // ---------------------------------------------------------------------
  // The active-low variant

  /** Every event of an active-low chip select targets the pin and carries
      the settings it was constructed with; it never prints. */
  lemma {:induction false} ActiveLowUsesOnlyItsPinAndSettings(pin: Pin, settings: SPISettings, calls: seq<Call>)
    ensures forall e | e in Run(ActiveLowCS(pin, settings), calls) :: UsesOnly(pin, settings, e)
  {
    var v := ActiveLowCS(pin, settings);
    if calls != [] {
      var init := calls[..|calls| - 1];
      ActiveLowUsesOnlyItsPinAndSettings(pin, settings, init);
      RunSnoc(v, init, calls[|calls| - 1]);
      assert calls == init + [calls[|calls| - 1]];
    }
  }

  /** The trace is the two construction events followed by two events per
      call, each pair being exactly that call's events. */
  lemma {:induction false} ActiveLowLayout(pin: Pin, settings: SPISettings, calls: seq<Call>)
    ensures var t := Run(ActiveLowCS(pin, settings), calls);
            |t| == 2 + 2 * |calls| &&
            t[0] == ConfigureOutput(pin) && t[1] == WriteLevel(pin, 1) &&
            forall j | 0 <= j < |calls| ::
              t[2 + 2 * j] == CallEvents(ActiveLowCS(pin, settings), calls[j])[0] &&
              t[3 + 2 * j] == CallEvents(ActiveLowCS(pin, settings), calls[j])[1]
  {
    var v := ActiveLowCS(pin, settings);
    if calls != [] {
      var init := calls[..|calls| - 1];
      var c := calls[|calls| - 1];
      ActiveLowLayout(pin, settings, init);
      RunSnoc(v, init, c);
      assert calls == init + [c];
    }
  }

  /** The pin is asserted only right after a transaction begins, every
      transaction begin is followed right away by the assertion, the pin is
      deasserted (after construction) only right before a transaction ends,
      and every transaction end comes right after the deassertion. */
  lemma ActiveLowOrdering(pin: Pin, settings: SPISettings, calls: seq<Call>)
    ensures var t := Run(ActiveLowCS(pin, settings), calls);
            forall k | 0 <= k < |t| ::
              (t[k].BeginTransaction? ==> k + 1 < |t| && t[k + 1] == WriteLevel(pin, 0)) &&
              (t[k] == WriteLevel(pin, 0) ==> 0 < k && t[k - 1] == BeginTransaction(settings)) &&
              (t[k] == WriteLevel(pin, 1) ==> k == 1 || (k + 1 < |t| && t[k + 1] == EndTransaction)) &&
              (t[k] == EndTransaction ==> 0 < k && t[k - 1] == WriteLevel(pin, 1))
  {
    var v := ActiveLowCS(pin, settings);
    var t := Run(v, calls);
    ActiveLowLayout(pin, settings, calls);
    forall k | 0 <= k < |t|
      ensures t[k].BeginTransaction? ==> k + 1 < |t| && t[k + 1] == WriteLevel(pin, 0)
      ensures t[k] == WriteLevel(pin, 0) ==> 0 < k && t[k - 1] == BeginTransaction(settings)
      ensures t[k] == WriteLevel(pin, 1) ==> k == 1 || (k + 1 < |t| && t[k + 1] == EndTransaction)
      ensures t[k] == EndTransaction ==> 0 < k && t[k - 1] == WriteLevel(pin, 1)
    {
      if k >= 2 {
        var j := (k - 2) / 2;
        assert 0 <= j < |calls|;
        if k == 2 + 2 * j {
          assert t[k] == CallEvents(v, calls[j])[0];
          assert t[k + 1] == CallEvents(v, calls[j])[1];
        } else {
          assert k == 3 + 2 * j;
          assert t[k - 1] == CallEvents(v, calls[j])[0];
          assert t[k] == CallEvents(v, calls[j])[1];
        }
      }
    }
  }

  /** Whatever came before, one call leaves the line low and a transaction
      open if it is select(), and the line high and none open if it is
      deselect(). */
  lemma CallState(pin: Pin, settings: SPISettings, r: seq<Event>, c: Call)
    ensures var t := r + CallEvents(ActiveLowCS(pin, settings), c);
            LastLevel(t, pin) == Some(if c == SelectCall then 0 else 1) &&
            TxOpen(t) == (c == SelectCall)
  {
    var e := CallEvents(ActiveLowCS(pin, settings), c);
    LastLevelAppend(r, e, pin);
    TxStateAppend(r, e);
    assert e == [e[0]] + [e[1]];
    LastLevelAppend([e[0]], [e[1]], pin);
    TxStateAppend([e[0]], [e[1]]);
  }

  /** The line and the transaction follow the most recent call, whatever
      the calls were: after a select() the line is low and a transaction is
      open; after construction or a deselect() the line is high and none is. */
  lemma ActiveLowStateAfter(pin: Pin, settings: SPISettings, calls: seq<Call>)
    ensures var t := Run(ActiveLowCS(pin, settings), calls);
            LastLevel(t, pin) == Some(if Selected(calls) then 0 else 1) &&
            TxOpen(t) == Selected(calls)
  {
    var v := ActiveLowCS(pin, settings);
    if calls == [] {
      assert Run(v, calls) == [ConfigureOutput(pin)] + [WriteLevel(pin, 1)];
      LastLevelAppend([ConfigureOutput(pin)], [WriteLevel(pin, 1)], pin);
      TxStateAppend([ConfigureOutput(pin)], [WriteLevel(pin, 1)]);
    } else {
      var init := calls[..|calls| - 1];
      var c := calls[|calls| - 1];
      RunSnoc(v, init, c);
      assert calls == init + [c];
      CallState(pin, settings, Run(v, init), c);
    }
  }

  /** Each call writes its pin exactly once, on top of what was written
      before: low for select(), high for deselect(). */
  lemma CallLevels(pin: Pin, settings: SPISettings, r: seq<Event>, c: Call)
    ensures PinLevels(r + CallEvents(ActiveLowCS(pin, settings), c), pin) ==
            PinLevels(r, pin) + [if c == SelectCall then 0 else 1]
  {
    var e := CallEvents(ActiveLowCS(pin, settings), c);
    assert e[..1] == [e[0]] && e[..2][..1] == [e[0]] && e[..2] == e;
    assert PinLevels([], pin) == [];
    PinLevelsAppend(r, e, pin);
  }

  /** The history of levels on the pin: high at construction, then one entry
      per call, low for select() and high for deselect(). */
  lemma {:induction false} ActiveLowPinLevels(pin: Pin, settings: SPISettings, calls: seq<Call>)
    ensures var h := PinLevels(Run(ActiveLowCS(pin, settings), calls), pin);
            |h| == |calls| + 1 && h[0] == 1 &&
            forall i | 0 <= i < |calls| :: h[i + 1] == if calls[i] == SelectCall then 0 else 1
  {
    var v := ActiveLowCS(pin, settings);
    if calls == [] {
      assert Run(v, calls) == [ConfigureOutput(pin)] + [WriteLevel(pin, 1)];
      PinLevelsAppend([ConfigureOutput(pin)], [WriteLevel(pin, 1)], pin);
    } else {
      var init := calls[..|calls| - 1];
      var c := calls[|calls| - 1];
      ActiveLowPinLevels(pin, settings, init);
      RunSnoc(v, init, c);
      CallLevels(pin, settings, Run(v, init), c);
      ghost var h0 := PinLevels(Run(v, init), pin);
      ghost var h := h0 + [if c == SelectCall then 0 else 1];
      assert PinLevels(Run(v, calls), pin) == h;
      forall i | 0 <= i < |calls|
        ensures h[i + 1] == if calls[i] == SelectCall then 0 else 1
      {
        if i < |init| {
          assert calls[i] == init[i];
        }
      }
    }
  }

  lemma AlternatedSnoc(calls: seq<Call>, c: Call)
    ensures Alternated(calls + [c]) <==>
            Alternated(calls) && (c == SelectCall <==> |calls| % 2 == 0)
  {
    var u := calls + [c];
    assert forall i | 0 <= i < |calls| :: u[i] == calls[i];
    assert u[|calls|] == c;
  }

  /** Under alternation the chip is selected exactly after an odd number of
      calls. */
  lemma AlternatedSelected(calls: seq<Call>)
    requires Alternated(calls)
    ensures Selected(calls) <==> |calls| % 2 == 1
  {
    if calls != [] {
      assert calls[|calls| - 1] == if (|calls| - 1) % 2 == 0 then SelectCall else DeselectCall;
    }
  }

  /** One active-low call keeps a trace well bracketed exactly when select()
      finds no transaction open and deselect() finds one open. */
  lemma CallKeepsBracketing(pin: Pin, settings: SPISettings, r: seq<Event>, c: Call)
    ensures WellBracketed(r + CallEvents(ActiveLowCS(pin, settings), c)) <==>
            WellBracketed(r) &&
            (c == SelectCall ==> !TxOpen(r)) &&
            (c == DeselectCall ==> TxOpen(r))
  {
    var e := CallEvents(ActiveLowCS(pin, settings), c);
    assert r + e == (r + [e[0]]) + [e[1]];
    WellBracketedSnoc(r, e[0]);
    WellBracketedSnoc(r + [e[0]], e[1]);
    TxStateAppend(r, [e[0]]);
  }

  /** An active-low chip select never nests nor leaves unmatched a
      transaction exactly when its calls alternate starting with select();
      a second select() re-begins an open transaction and a deselect()
      without select() ends one it never began. */
  lemma {:induction false} WellBracketedIffAlternated(pin: Pin, settings: SPISettings, calls: seq<Call>)
    ensures WellBracketed(Run(ActiveLowCS(pin, settings), calls)) <==> Alternated(calls)
  {
    var v := ActiveLowCS(pin, settings);
    if calls == [] {
      var t := Run(v, calls);
      assert t == [ConfigureOutput(pin), WriteLevel(pin, 1)];
      assert forall k | 0 <= k < |t| :: !t[k].BeginTransaction? && !t[k].EndTransaction?;
    } else {
      var init := calls[..|calls| - 1];
      var c := calls[|calls| - 1];
      WellBracketedIffAlternated(pin, settings, init);
      ActiveLowStateAfter(pin, settings, init);
      RunSnoc(v, init, c);
      CallKeepsBracketing(pin, settings, Run(v, init), c);
      assert calls == init + [c];
      AlternatedSnoc(init, c);
      if Alternated(init) {
        AlternatedSelected(init);
      }
    }
  }

  /** Under alternation the level history is 1, 0, 1, 0, ...: high at even
      positions and low at odd ones. */
  lemma AlternatedLevels(pin: Pin, settings: SPISettings, calls: seq<Call>)
    requires Alternated(calls)
    ensures var h := PinLevels(Run(ActiveLowCS(pin, settings), calls), pin);
            |h| == |calls| + 1 &&
            forall k | 0 <= k < |h| :: h[k] == if k % 2 == 0 then 1 else 0
  {
    ActiveLowPinLevels(pin, settings, calls);
    var h := PinLevels(Run(ActiveLowCS(pin, settings), calls), pin);
    forall k | 1 <= k < |h|
      ensures h[k] == if k % 2 == 0 then 1 else 0
    {
      assert h[(k - 1) + 1] == if calls[k - 1] == SelectCall then 0 else 1;
    }
  }

  lemma {:induction false} PairsAlternate(n: nat)
    ensures |Pairs(n)| == 2 * n && Alternated(Pairs(n))
  {
    if n > 0 {
      PairsAlternate(n - 1);
      var p := Pairs(n - 1);
      AlternatedSnoc(p, SelectCall);
      AlternatedSnoc(p + [SelectCall], DeselectCall);
      assert Pairs(n) == p + [SelectCall] + [DeselectCall];
    }
  }

  /** After construction and n select()/deselect() pairs, the level history
      is 1, 0, 1, ..., 1 with 2n + 1 entries, the line is high, no
      transaction is open and none was ever nested or unmatched. */
  lemma PairsReturnToRest(pin: Pin, settings: SPISettings, n: nat)
    ensures var t := Run(ActiveLowCS(pin, settings), Pairs(n));
            var h := PinLevels(t, pin);
            |h| == 2 * n + 1 && h[0] == 1 && h[2 * n] == 1 &&
            (forall k | 0 <= k < |h| :: h[k] == if k % 2 == 0 then 1 else 0) &&
            LastLevel(t, pin) == Some(1) && !TxOpen(t) && WellBracketed(t)
  {
    PairsAlternate(n);
    AlternatedLevels(pin, settings, Pairs(n));
    AlternatedSelected(Pairs(n));
    ActiveLowStateAfter(pin, settings, Pairs(n));
    WellBracketedIffAlternated(pin, settings, Pairs(n));
  }
}
