/** The strict libtest JSON protocol of one batch run. A line is what `json.loads` makes of it, a count
    being the integer that the field's value equals in Python (`ReadCount`). Every rejection is the
    same RuntimeError to the caller, hence one `None`. */
module Protocol {
  import opened Packing
  import opened Wrappers

  /** The value of a JSON field that the parser compares with a count. */
  datatype Json = Absent | Whole(n: int) | Decimal(r: real) | Boolean(b: bool) | Other

  /** Python's `==` between a JSON value and an integer: `3.0` is 3 and `true` is 1. */
  predicate PythonEquals(j: Json, count: int) {
    match j
    case Whole(n) => n == count
    case Decimal(r) => r == count as real
    case Boolean(b) => count == if b then 1 else 0
    case _ => false
  }

  /** The integer a JSON value equals, if there is one. */
  function ReadCount(j: Json): Option<int> {
    match j
    case Whole(n) => Some(n)
    case Decimal(r) => if r == r.Floor as real then Some(r.Floor) else None
    case Boolean(b) => Some(if b then 1 else 0)
    case _ => None
  }

  /** Reading a count first decides every later comparison with an integer as Python does. */
  lemma {:induction false} ReadCountDecides(j: Json, count: int)
    ensures PythonEquals(j, count) <==> ReadCount(j) == Some(count)
  {
    if j.Decimal? && j.r == count as real {
      assert j.r.Floor == count;
    }
  }

  datatype TestState = Started | Ok | Failed | Ignored | Unknown

  datatype SuiteEnd = SuiteEnd(failed: bool, passedCount: Option<int>, failedCount: Option<int>,
                               ignoredCount: Option<int>, measured: Option<int>, filteredOut: Option<int>)

  datatype Line =
    | Blank
    | Malformed
    | SuiteUnknown
    | SuiteStarted(testCount: Option<int>)
    | SuiteFinished(outcome: SuiteEnd)
    | Test(name: Option<Name>, state: TestState, validDuration: bool, validStdout: bool)
  {
    /** A record that ends one test. */
    predicate Ends() { Test? && name.Some? && state in {Ok, Failed, Ignored} }
  }

  datatype Verdict = Passed | NotPassed

  datatype Parsed = Parsed(results: map<Name, Verdict>, complete: bool, terminal: Option<SuiteEnd>)

  /** A line that some transcript for these tests may hold. */
  ghost predicate LineAllowed(line: Line, expected: set<Name>) {
    match line
    case Malformed => false
    case SuiteUnknown => false
    case Test(name, state, _, _) => name.Some? && name.value in expected && state != Unknown
    case _ => true
  }

  /** The tests some line ends in one of `states`. */
  ghost function EndedIn(lines: seq<Line>, states: set<TestState>): set<Name> {
    set i | 0 <= i < |lines| && lines[i].Ends() && lines[i].state in states :: lines[i].name.value
  }

  ghost function Ended(lines: seq<Line>): set<Name> { EndedIn(lines, {Ok, Failed, Ignored}) }

  ghost predicate NoRepeats(lines: seq<Line>) {
    forall i, j :: 0 <= i < j < |lines| ==>
      && !(lines[i].SuiteStarted? && lines[j].SuiteStarted?)
      && !(lines[i].SuiteFinished? && lines[j].SuiteFinished?)
      && !(lines[i].Ends() && lines[j].Ends() && lines[i].name == lines[j].name)
  }

  ghost predicate HasEnd(lines: seq<Line>) { exists line :: line in lines && line.SuiteFinished? }

  /** The closing record is an exact account of the per-test records. */
  ghost predicate ExactEnd(lines: seq<Line>, expected: set<Name>, expectedIgnored: set<Name>,
                           expectedFiltered: int, end: SuiteEnd)
  {
    && Ended(lines) == expected
    && EndedIn(lines, {Ignored}) == expectedIgnored
    && end.passedCount == Some(|EndedIn(lines, {Ok})|)
    && end.failedCount == Some(|EndedIn(lines, {Failed})|)
    && end.ignoredCount == Some(|EndedIn(lines, {Ignored})|)
    && end.measured == Some(0)
    && end.filteredOut == Some(expectedFiltered)
    && (end.failed <==> EndedIn(lines, {Failed}) != {})
  }

  /** Everything the protocol demands of a transcript, without reference to line order. */
  ghost predicate Accepts(lines: seq<Line>, expected: set<Name>, expectedIgnored: set<Name>, expectedFiltered: int)
  {
    && (forall line :: line in lines ==> LineAllowed(line, expected))
    && NoRepeats(lines)
    && SuiteStarted(Some(|expected|)) in lines
    && EndedIn(lines, {Ignored}) <= expectedIgnored
    && (!HasEnd(lines) ==> Ended(lines) != expected)
    && (forall line :: line in lines && line.SuiteFinished? ==>
          ExactEnd(lines, expected, expectedIgnored, expectedFiltered, line.outcome))
    && (forall line :: line in lines && line.Ends() && line.state != Ignored ==>
          line.validDuration && line.validStdout)
  }

  /** What an accepted transcript says. */
  ghost predicate Reports(lines: seq<Line>, parsed: Parsed) {
    && parsed.results.Keys == EndedIn(lines, {Ok, Failed})
    && (forall n :: n in parsed.results ==> (parsed.results[n] == Passed <==> n in EndedIn(lines, {Ok})))
    && (parsed.complete <==> HasEnd(lines))
    && (parsed.complete <==> parsed.terminal.Some?)
    && (parsed.complete ==> SuiteFinished(parsed.terminal.value) in lines)
  }

  lemma {:induction false} EndedAreExpected(lines: seq<Line>, expected: set<Name>, expectedFiltered: int)
    requires Accepts(lines, expected, {}, expectedFiltered)
    ensures Ended(lines) <= expected
  {
    forall n | n in Ended(lines) ensures n in expected {
      var i :| 0 <= i < |lines| && lines[i].Ends() && lines[i].name.value == n;
      assert lines[i] in lines;
    }
  }

  lemma {:induction false} AcceptedMeans(lines: seq<Line>, expected: set<Name>, expectedFiltered: int)
    requires Accepts(lines, expected, {}, expectedFiltered)
    ensures NoRepeats(lines)
    ensures EndedIn(lines, {Ok, Failed}) <= expected
    ensures HasEnd(lines) <==> EndedIn(lines, {Ok, Failed}) == expected
    ensures forall end :: SuiteFinished(end) in lines ==> (end.failed <==> EndedIn(lines, {Failed}) != {})
  {
    EndedSplit(lines);
    EndedAreExpected(lines, expected, expectedFiltered);
    hide EndedIn, NoRepeats, LineAllowed;
    if HasEnd(lines) {
      var line :| line in lines && line.SuiteFinished?;
      assert ExactEnd(lines, expected, {}, expectedFiltered, line.outcome);
    }
    forall end | SuiteFinished(end) in lines ensures end.failed <==> EndedIn(lines, {Failed}) != {} {
      assert ExactEnd(lines, expected, {}, expectedFiltered, SuiteFinished(end).outcome);
    }
  }

  /** With no test allowed to be ignored, an accepted transcript resolves every expected test
      exactly when it is complete. */
  lemma {:induction false} CompleteExactlyWhenAllResolved(lines: seq<Line>, expected: set<Name>, expectedFiltered: int,
                                                          parsed: Parsed)
    requires Accepts(lines, expected, {}, expectedFiltered) && Reports(lines, parsed)
    ensures parsed.results.Keys <= expected
    ensures parsed.complete <==> parsed.results.Keys == expected
    ensures parsed.complete ==> (parsed.terminal.value.failed
        <==> exists n :: n in parsed.results && parsed.results[n] == NotPassed)
  {
    AcceptedMeans(lines, expected, expectedFiltered);
    FailedAreNotPassed(lines, parsed);
    hide Accepts, EndedIn, Ended, NoRepeats, HasEnd;
    var failed := EndedIn(lines, {Failed});
    if parsed.complete && parsed.terminal.value.failed {
      var n :| n in failed;
      assert n in parsed.results && parsed.results[n] == NotPassed;
    }
    if n :| n in parsed.results && parsed.results[n] == NotPassed {
      assert n in failed;
    }
  }

  lemma {:induction false} EndedSplit(lines: seq<Line>)
    ensures Ended(lines) == EndedIn(lines, {Ok, Failed}) + EndedIn(lines, {Ignored})
  {}

  lemma {:induction false} FailedAreNotPassed(lines: seq<Line>, parsed: Parsed)
    requires NoRepeats(lines) && Reports(lines, parsed)
    ensures EndedIn(lines, {Failed}) == set n | n in parsed.results && parsed.results[n] == NotPassed
  {
    var failed := EndedIn(lines, {Failed});
    forall n | n in failed
      ensures n in parsed.results && parsed.results[n] == NotPassed
    {
      var i :| 0 <= i < |lines| && lines[i].Ends() && lines[i].state == Failed && lines[i].name.value == n;
      assert n in EndedIn(lines, {Ok, Failed});
      if n in EndedIn(lines, {Ok}) {
        assert false;
      }
    }
    forall n | n in parsed.results && parsed.results[n] == NotPassed ensures n in failed {
      var i :| 0 <= i < |lines| && lines[i].Ends() && lines[i].state in {Ok, Failed} && lines[i].name.value == n;
      assert lines[i].state == Ok ==> n in EndedIn(lines, {Ok});
    }
  }

  /** The loop state of the parser over the lines read so far. */
  ghost predicate Collected(lines: seq<Line>, started: Option<Line>, finished: Option<SuiteEnd>,
                            events: map<Name, Line>)
  {
    && (forall line :: line in lines && line.SuiteStarted? ==> started.Some?)
    && (started.Some? ==> started.value in lines && started.value.SuiteStarted?)
    && (forall line :: line in lines && line.SuiteFinished? ==> finished == Some(line.outcome))
    && (finished.Some? ==> SuiteFinished(finished.value) in lines)
    && (forall line :: line in lines && line.Ends() ==>
          line.name.value in events && events[line.name.value] == line)
    && (forall n :: n in events ==> events[n] in lines && events[n].Ends() && events[n].name.value == n)
  }

  lemma {:induction false} CollectedStep(lines: seq<Line>, line: Line, started: Option<Line>,
                                         finished: Option<SuiteEnd>, events: map<Name, Line>)
    requires Collected(lines, started, finished, events)
    requires !(line.SuiteStarted? && started.Some?) && !(line.SuiteFinished? && finished.Some?)
    requires !(line.Ends() && line.name.value in events)
    ensures Collected(lines + [line],
                      if line.SuiteStarted? then Some(line) else started,
                      if line.SuiteFinished? then Some(line.outcome) else finished,
                      if line.Ends() then events[line.name.value := line] else events)
  {
    assert forall l :: l in lines + [line] <==> l in lines || l == line;
  }

  function InState(events: map<Name, Line>, states: set<TestState>): set<Name> {
    set n | n in events && events[n].Test? && events[n].state in states
  }

  lemma {:induction false} CollectedSets(lines: seq<Line>, started: Option<Line>, finished: Option<SuiteEnd>,
                                         events: map<Name, Line>, states: set<TestState>)
    requires Collected(lines, started, finished, events)
    ensures EndedIn(lines, states) == InState(events, states)
  {
    forall n | n in InState(events, states) ensures n in EndedIn(lines, states) {
      var i :| 0 <= i < |lines| && lines[i] == events[n];
    }
    forall n | n in EndedIn(lines, states) ensures n in InState(events, states) {
      var i :| 0 <= i < |lines| && lines[i].Ends() && lines[i].state in states && lines[i].name.value == n;
      assert lines[i] in lines;
    }
  }

  /** The checks made once all lines are read, on what was collected. */
  ghost predicate FinalChecks(started: Option<Line>, finished: Option<SuiteEnd>, events: map<Name, Line>,
                              expected: set<Name>, expectedIgnored: set<Name>, expectedFiltered: int)
  {
    && started.Some? && started.value == SuiteStarted(Some(|expected|))
    && InState(events, {Ignored}) <= expectedIgnored
    && (finished.None? ==> events.Keys != expected)
    && (finished.Some? ==>
          && events.Keys == expected
          && InState(events, {Ignored}) == expectedIgnored
          && finished.value.passedCount == Some(|InState(events, {Ok})|)
          && finished.value.failedCount == Some(|InState(events, {Failed})|)
          && finished.value.ignoredCount == Some(|InState(events, {Ignored})|)
          && finished.value.measured == Some(0)
          && finished.value.filteredOut == Some(expectedFiltered)
          && (finished.value.failed <==> InState(events, {Failed}) != {}))
    && (forall n :: n in events && events[n].Test? && events[n].state != Ignored ==>
          events[n].validDuration && events[n].validStdout)
  }

  lemma {:induction false} FinalChecksDecide(lines: seq<Line>, started: Option<Line>, finished: Option<SuiteEnd>,
                                             events: map<Name, Line>, expected: set<Name>, expectedIgnored: set<Name>,
                                             expectedFiltered: int)
    requires forall line :: line in lines ==> LineAllowed(line, expected)
    requires NoRepeats(lines)
    requires Collected(lines, started, finished, events)
    ensures Accepts(lines, expected, expectedIgnored, expectedFiltered)
       <==> FinalChecks(started, finished, events, expected, expectedIgnored, expectedFiltered)
  {
    CollectedSets(lines, started, finished, events, {Ok, Failed, Ignored});
    CollectedSets(lines, started, finished, events, {Ok});
    CollectedSets(lines, started, finished, events, {Failed});
    CollectedSets(lines, started, finished, events, {Ignored});
    assert InState(events, {Ok, Failed, Ignored}) == events.Keys;
    OneStart(lines, started, SuiteStarted(Some(|expected|)));
  }

  lemma {:induction false} OneStart(lines: seq<Line>, started: Option<Line>, wanted: Line)
    requires NoRepeats(lines) && wanted.SuiteStarted?
    requires forall line :: line in lines && line.SuiteStarted? ==> started.Some?
    requires started.Some? ==> started.value in lines && started.value.SuiteStarted?
    ensures wanted in lines <==> started == Some(wanted)
  {
    if wanted in lines {
      var i :| 0 <= i < |lines| && lines[i] == wanted;
      var j :| 0 <= j < |lines| && lines[j] == started.value;
      assert !(i < j) && !(j < i);
    }
  }

  lemma {:induction false} CollectedReports(lines: seq<Line>, started: Option<Line>, finished: Option<SuiteEnd>,
                                            events: map<Name, Line>, parsed: Parsed)
    requires Collected(lines, started, finished, events)
    requires parsed.results.Keys == InState(events, {Ok, Failed})
    requires forall n :: n in parsed.results ==> (parsed.results[n] == Passed <==> events[n].state == Ok)
    requires parsed.complete == finished.Some? && parsed.terminal == finished
    ensures Reports(lines, parsed)
  {
    CollectedSets(lines, started, finished, events, {Ok, Failed});
    CollectedSets(lines, started, finished, events, {Ok});
  }

  /** A line that repeats an earlier record, or is not allowed, spoils every longer transcript. */
  lemma {:induction false} Spoiled(lines: seq<Line>, k: nat, expected: set<Name>, expectedIgnored: set<Name>,
                                   expectedFiltered: int)
    requires k < |lines|
    requires !LineAllowed(lines[k], expected) || !NoRepeats(lines[..k + 1])
    ensures !Accepts(lines, expected, expectedIgnored, expectedFiltered)
  {
    if !LineAllowed(lines[k], expected) {
      assert lines[k] in lines;
    } else if NoRepeats(lines) {
      var prefix := lines[..k + 1];
      forall i, j | 0 <= i < j < |prefix|
        ensures !(prefix[i].SuiteStarted? && prefix[j].SuiteStarted?)
        ensures !(prefix[i].SuiteFinished? && prefix[j].SuiteFinished?)
        ensures !(prefix[i].Ends() && prefix[j].Ends() && prefix[i].name == prefix[j].name)
      {
        assert prefix[i] == lines[i] && prefix[j] == lines[j];
      }
      assert false;
    }
  }

  /** `line` repeats a record among `lines`. */
  ghost predicate RepeatsOne(lines: seq<Line>, line: Line) {
    || (line.SuiteStarted? && exists l :: l in lines && l.SuiteStarted?)
    || (line.SuiteFinished? && HasEnd(lines))
    || (line.Ends() && exists l :: l in lines && l.Ends() && l.name == line.name)
  }

  lemma {:induction false} NoRepeatsStep(lines: seq<Line>, line: Line)
    requires NoRepeats(lines)
    ensures NoRepeats(lines + [line]) <==> !RepeatsOne(lines, line)
  {
    var longer := lines + [line];
    if RepeatsOne(lines, line) {
      var l :| l in lines && ((line.SuiteStarted? && l.SuiteStarted?) || (line.SuiteFinished? && l.SuiteFinished?)
                              || (line.Ends() && l.Ends() && l.name == line.name));
      var i :| 0 <= i < |lines| && lines[i] == l;
      assert longer[i] == l && longer[|lines|] == line;
    } else {
      forall i, j | 0 <= i < j < |longer|
        ensures !(longer[i].SuiteStarted? && longer[j].SuiteStarted?)
        ensures !(longer[i].SuiteFinished? && longer[j].SuiteFinished?)
        ensures !(longer[i].Ends() && longer[j].Ends() && longer[i].name == longer[j].name)
      {
        assert longer[i] == lines[i] && lines[i] in lines;
        if j < |lines| {
          assert longer[j] == lines[j];
        }
      }
    }
  }

  /** The closing loop of the parser: one verdict per test that ran, unless a record is malformed. */
  method ReadVerdicts(events: map<Name, Line>) returns (r: Option<map<Name, Verdict>>)
    requires forall n :: n in events ==> events[n].Test?
    ensures r.Some? <==> forall n :: n in events && events[n].state in {Ok, Failed} ==>
                           events[n].validDuration && events[n].validStdout
    ensures r.Some? ==> r.value.Keys == InState(events, {Ok, Failed})
    ensures r.Some? ==> forall n :: n in r.value ==> (r.value[n] == Passed <==> events[n].state == Ok)
  {
    var results: map<Name, Verdict> := map[];
    var todo := InState(events, {Ok, Failed});
    while todo != {}
      invariant todo <= InState(events, {Ok, Failed})
      invariant results.Keys == InState(events, {Ok, Failed}) - todo
      invariant forall n :: n in results ==>
        && (results[n] == Passed <==> events[n].state == Ok)
        && events[n].validDuration && events[n].validStdout
    {
      var name :| name in todo;
      var event := events[name];
      if !event.validDuration || !event.validStdout {
        return None;
      }
      results := results[name := if event.state == Ok then Passed else NotPassed];
      todo := todo - {name};
    }
    forall n | n in events && events[n].state in {Ok, Failed}
      ensures events[n].validDuration && events[n].validStdout
    {
      assert n in InState(events, {Ok, Failed});
    }
    return Some(results);
  }

  /** `parse_batch_json`: accepts exactly the transcripts the protocol allows, and reports them. */
  method ParseBatch(lines: seq<Line>, expected: set<Name>, expectedIgnored: set<Name>, expectedFiltered: int)
    returns (r: Option<Parsed>)
    ensures r.Some? <==> Accepts(lines, expected, expectedIgnored, expectedFiltered)
    ensures r.Some? ==> Reports(lines, r.value)
  {
    var started: Option<Line> := None;
    var finished: Option<SuiteEnd> := None;
    var events: map<Name, Line> := map[];
    for k := 0 to |lines|
      invariant forall line :: line in lines[..k] ==> LineAllowed(line, expected)
      invariant NoRepeats(lines[..k])
      invariant Collected(lines[..k], started, finished, events)
    {
      var line := lines[k];
      assert lines[..k + 1] == lines[..k] + [line];
      NoRepeatsStep(lines[..k], line);
      ghost var spoils := !LineAllowed(line, expected)
                       || (line.SuiteStarted? && started.Some?)
                       || (line.SuiteFinished? && finished.Some?)
                       || (line.Ends() && line.name.value in events);
      if spoils {
        assert !LineAllowed(line, expected) || RepeatsOne(lines[..k], line);
        Spoiled(lines, k, expected, expectedIgnored, expectedFiltered);
      } else {
        CollectedStep(lines[..k], line, started, finished, events);
      }
      match line {
        case Blank =>
        case Malformed => return None;
        case SuiteUnknown => return None;
        case SuiteStarted(_) =>
          if started.Some? {
            return None;
          }
          started := Some(line);
        case SuiteFinished(outcome) =>
          if finished.Some? {
            return None;
          }
          finished := Some(outcome);
        case Test(name, state, _, _) =>
          if name.None? || name.value !in expected {
            return None;
          }
          if state != Started {
            if state == Unknown || name.value in events {
              return None;
            }
            events := events[name.value := line];
          }
      }
    }
    assert lines[..|lines|] == lines;
    FinalChecksDecide(lines, started, finished, events, expected, expectedIgnored, expectedFiltered);

    if started.None? || started.value.testCount != Some(|expected|) {
      return None;
    }
    var ignored := InState(events, {Ignored});
    if !(ignored <= expectedIgnored) {
      return None;
    }
    if finished.None? && events.Keys == expected {
      return None;
    }
    if finished.Some? {
      var end := finished.value;
      if events.Keys != expected || ignored != expectedIgnored {
        return None;
      }
      var passedCount, failedCount := |InState(events, {Ok})|, |InState(events, {Failed})|;
      if end.passedCount != Some(passedCount) || end.failedCount != Some(failedCount)
         || end.ignoredCount != Some(|ignored|) {
        return None;
      }
      if end.measured != Some(0) || end.filteredOut != Some(expectedFiltered) {
        return None;
      }
      if end.failed != (failedCount != 0) {
        return None;
      }
    }
    var results := ReadVerdicts(events);
    if results.None? {
      return None;
    }
    var parsed := Parsed(results.value, finished.Some?, finished);
    CollectedReports(lines, started, finished, events, parsed);
    return Some(parsed);
  }
}
