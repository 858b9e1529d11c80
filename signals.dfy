/**
 * Name lookup in the signal and command catalogue.  The translator only
 * calls `lookupSignal` and `lookupCommand`; their bodies are not part of this
 * model, which describes them as first-match scans of the catalogue tables.
 */
module Signals {
  import opened Wrappers
  import opened Can

  /** A signal that a lookup for `name` may return. */
  predicate Eligible(s: CanSignal, name: string, writableOnly: bool)
  {
    s.name == name && (writableOnly ==> s.writable)
  }

  /**
   * lookupSignal: the position of the first signal named `name`, skipping
   * signals that are not writable when `writableOnly` is set.
   */
  function LookupSignal(name: string, signals: seq<CanSignal>, writableOnly: bool): (r: Option<nat>)
    ensures r.Some? ==> r.value < |signals| && Eligible(signals[r.value], name, writableOnly)
    ensures r.Some? ==> forall j :: 0 <= j < r.value ==> !Eligible(signals[j], name, writableOnly)
    ensures r.None? <==> forall j :: 0 <= j < |signals| ==> !Eligible(signals[j], name, writableOnly)
  {
    if signals == [] then None
    else if Eligible(signals[0], name, writableOnly) then Some(0)
    else match LookupSignal(name, signals[1..], writableOnly)
      case None => None
      case Some(i) => Some(i + 1)
  }

  /** lookupCommand: the position of the first command named `name`. */
  function LookupCommand(name: string, commands: seq<CanCommand>): (r: Option<nat>)
    ensures r.Some? ==> r.value < |commands| && commands[r.value].name == name
    ensures r.Some? ==> forall j :: 0 <= j < r.value ==> commands[j].name != name
    ensures r.None? <==> forall j :: 0 <= j < |commands| ==> commands[j].name != name
  {
    if commands == [] then None
    else if commands[0].name == name then Some(0)
    else match LookupCommand(name, commands[1..])
      case None => None
      case Some(i) => Some(i + 1)
  }

  /** The signal a lookup finds, if any. */
  function FindSignal(name: string, signals: seq<CanSignal>, writableOnly: bool): (r: Option<CanSignal>)
    ensures r.Some? ==> r.value in signals && Eligible(r.value, name, writableOnly)
    ensures r.None? <==> forall s :: s in signals ==> !Eligible(s, name, writableOnly)
  {
    match LookupSignal(name, signals, writableOnly)
    case None => None
    case Some(i) => Some(signals[i])
  }

  /** The catalogue's writable signals, in order. */
  function WritableSignals(signals: seq<CanSignal>): (r: seq<CanSignal>)
    ensures forall s :: s in r ==> s in signals && s.writable
  {
    if signals == [] then []
    else (if signals[0].writable then [signals[0]] else []) + WritableSignals(signals[1..])
  }

  /**
   * A lookup restricted to writable signals cannot tell a non-writable signal
   * from a missing one: it finds the same signal after every non-writable
   * signal is removed from the catalogue.
   */
  lemma {:induction false} WritableLookupIgnoresReadOnly(name: string, signals: seq<CanSignal>)
    ensures FindSignal(name, signals, true) == FindSignal(name, WritableSignals(signals), true)
  {
    if signals != [] {
      WritableLookupIgnoresReadOnly(name, signals[1..]);
      var rest := WritableSignals(signals[1..]);
      if signals[0].writable {
        assert WritableSignals(signals) == [signals[0]] + rest;
        assert ([signals[0]] + rest)[1..] == rest;
      } else {
        assert WritableSignals(signals) == rest;
      }
    }
  }
}
