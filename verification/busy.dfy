/** The in-flight flag each output screen keeps (`isSaving`, `isProcessing`,
    `isMerging`). A handler raises it on entry and lowers it in its `finally`
    block; while it is up the screen's action buttons are `disabled`, which
    is what keeps a second run from starting. */
module Busy {
  import opened Wrappers
  import opened Pdf

  /** Whether an action button accepts a click: not while the flag is up,
      and not while the screen's own condition (a loaded file, a non-empty
      list, ...) is unmet. */
  predicate Enabled(busy: bool, ready: bool) {
    !busy && ready
  }

  /** One screen over time: its flag, how many handler bodies have started
      and not yet settled, and the artifacts delivered so far. */
  datatype Session<T> = Session(busy: bool, inFlight: nat, delivered: seq<T>)

  /** At most one body runs, and the flag is up exactly while it does. */
  predicate Valid<T>(s: Session<T>) {
    s.inFlight <= 1 && (s.busy <==> s.inFlight == 1)
  }

  datatype Event<T> =
    | Press(ready: bool)                        // a click on the action button
    | Settle(outcome: Result<T, PdfError>)      // the pending body resolves or throws

  /** A click runs the handler up to its first `await`: the flag goes up and
      the body starts. A disabled button ignores the click. */
  function OnPress<T>(s: Session<T>, ready: bool): (r: Session<T>)
    ensures Valid(s) ==> Valid(r)
    ensures Enabled(s.busy, ready) ==> r.busy && r.inFlight == s.inFlight + 1 && r.delivered == s.delivered
    ensures !Enabled(s.busy, ready) ==> r == s
  {
    if Enabled(s.busy, ready) then Session(true, s.inFlight + 1, s.delivered) else s
  }

  /** The pending body settles: on success its artifact is delivered, on
      failure nothing is, and `finally` lowers the flag on both paths. With
      no body pending there is nothing to settle. */
  function OnSettle<T>(s: Session<T>, outcome: Result<T, PdfError>): (r: Session<T>)
    ensures Valid(s) ==> Valid(r)
    ensures s.inFlight > 0 ==> !r.busy || r.inFlight > 0
    ensures Valid(s) && s.inFlight > 0 ==> !r.busy
    ensures s.inFlight == 0 ==> r == s
    ensures s.inFlight > 0 && outcome.Success? ==> r.delivered == s.delivered + [outcome.value]
    ensures outcome.Failure? ==> r.delivered == s.delivered
  {
    if s.inFlight == 0 then s
    else
      var delivered := if outcome.Success? then s.delivered + [outcome.value] else s.delivered;
      Session(s.inFlight > 1, s.inFlight - 1, delivered)
  }

  function Step<T>(s: Session<T>, e: Event<T>): Session<T> {
    match e
    case Press(ready) => OnPress(s, ready)
    case Settle(outcome) => OnSettle(s, outcome)
  }

  function Run<T>(s: Session<T>, events: seq<Event<T>>): Session<T>
    decreases |events|
  {
    if |events| == 0 then s else Run(Step(s, events[0]), events[1..])
  }

  function CountSettles<T>(events: seq<Event<T>>): nat {
    if |events| == 0 then 0
    else (if events[0].Settle? then 1 else 0) + CountSettles(events[1..])
  }

  /** Whatever the clicks and settlements, never more than one body is in
      flight, each delivery comes from a settlement, and nothing delivered
      is lost. */
  lemma {:induction false} RunKeepsOneInFlight<T>(s: Session<T>, events: seq<Event<T>>)
    requires Valid(s)
    ensures Valid(Run(s, events))
    ensures |Run(s, events).delivered| <= |s.delivered| + CountSettles(events)
    ensures s.delivered <= Run(s, events).delivered
    decreases |events|
  {
    if |events| > 0 {
      var t := Step(s, events[0]);
      RunKeepsOneInFlight(t, events[1..]);
    }
  }

  /** Two quick clicks followed by the first body's success deliver exactly
      one artifact and leave the flag down; a later stray settlement changes
      nothing. */
  lemma {:induction false} DoubleClickDeliversOnce<T>(s: Session<T>, ready: bool, out: T, later: Result<T, PdfError>)
    requires Valid(s) && !s.busy && ready
    ensures var r := Run(s, [Press(ready), Press(ready), Settle(Success(out)), Settle(later)]);
      r.delivered == s.delivered + [out] && !r.busy
  {
    var e1, e2, e3, e4 := Press(ready), Press(ready), Settle(Success(out)), Settle(later);
    var s1 := OnPress(s, ready);
    var s2 := OnPress(s1, ready);
    assert s2 == s1;
    var s3 := OnSettle(s2, Success(out));
    assert s3.inFlight == 0;
    assert Run(s3, [e4]) == s3 by {
      assert [e4][1..] == [];
    }
    assert Run(s2, [e3, e4]) == s3 by {
      assert [e3, e4][1..] == [e4];
    }
    assert Run(s1, [e2, e3, e4]) == s3 by {
      assert [e2, e3, e4][1..] == [e3, e4];
    }
    assert [e1, e2, e3, e4][1..] == [e2, e3, e4];
  }

  /** A click that is accepted and then fails leaves the flag down and
      delivers nothing. */
  lemma {:induction false} FailureReleasesFlag<T>(s: Session<T>, ready: bool, e: PdfError)
    requires Valid(s) && Enabled(s.busy, ready)
    ensures var r := Run(s, [Press(ready), Settle(Failure(e))]);
      !r.busy && r.delivered == s.delivered
  {
    var e1: Event<T>, e2: Event<T> := Press(ready), Settle(Failure(e));
    var s1 := OnPress(s, ready);
    assert Run(s1, [e2]) == OnSettle(s1, Failure(e)) by {
      assert [e2][1..] == [];
    }
    assert [e1, e2][1..] == [e2];
  }
}
