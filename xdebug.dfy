/**
 * Collapsing an Xdebug function trace into folded stacks.
 *
 * Every usable record first charges the time elapsed since the previous
 * record, scaled to microseconds, to the stack of calls that was open during
 * that time; only then does the record take effect: an exit pops the
 * innermost call, an entry interns its frame and pushes it. An exit with no
 * open call is discarded. The report has one line per distinct stack: the
 * frames' display names joined by `;`, root first, a space, and the weight.
 *
 * `Step` and `Run` say what happens, record by record, as values;
 * `HandleFile` is the imperative driver, proved to compute exactly that.
 */
module Xdebug {
  import opened Wrappers
  import opened Text
  import opened Calls
  import opened CallStacks
  import opened Records

  /** Seconds to microseconds. */
  const ScaleFactor: real := 1000000.0

  /** What the driver has accumulated: weights per stack, the call stack, and the last timestamp. */
  datatype Aggregate = Aggregate(
    stacks: map<seq<nat>, real>,
    callStack: CallStackState,
    prevStartTime: real)

  const Initial := Aggregate(map[], EmptyCallStack, 0.0)

  /** Add `weight` to the entry for `key`, creating the entry if it is absent. */
  function Charge(stacks: map<seq<nat>, real>, key: seq<nat>, weight: real): (r: map<seq<nat>, real>)
    ensures r.Keys == stacks.Keys + {key}
    ensures r[key] == (if key in stacks then stacks[key] else 0.0) + weight
    ensures forall k | k in stacks && k != key :: r[k] == stacks[k]
  {
    if key in stacks then stacks[key := stacks[key] + weight] else stacks[key := weight]
  }

  /** The effect of an entry on the call stack; an entry without name and file pushes nothing. */
  function Enter(cs: CallStackState, r: Record): CallStackState {
    if r.name.Some? && r.path.Some? then
      if r.name.value in IncludeCalls then EnterWithPath(cs, r.name.value, r.path.value)
      else EnterWithoutPath(cs, r.name.value)
    else cs
  }

  /** The effect of one usable record. */
  function Step(a: Aggregate, r: Record): Aggregate {
    if r.isExit && a.callStack.stack == [] then a
    else
      var stacks := Charge(a.stacks, a.callStack.stack, ScaleFactor * (r.time - a.prevStartTime));
      var callStack := if r.isExit then Popped(a.callStack) else Enter(a.callStack, r);
      Aggregate(stacks, callStack, r.time)
  }

  /** The effect of a run of record lines, in order; the first fatal line aborts it. */
  function Run(lines: seq<string>, parseTime: TimeParser): Result<Aggregate, Fault>
    decreases |lines|
  {
    if lines == [] then Ok(Initial)
    else
      match Run(lines[..|lines| - 1], parseTime)
      case Failure(f) => Failure(f)
      case Ok(a) =>
        match ParseRecord(lines[|lines| - 1], parseTime)
        case Blank => Ok(a)
        case Fatal(f) => Failure(f)
        case Event(r) => Ok(Step(a, r))
  }

  /** The result of collapsing a whole trace file. */
  function CollapseTrace(lines: seq<string>, parseTime: TimeParser): Result<Aggregate, Fault> {
    Run(Region(lines), parseTime)
  }

  /**
   * One record, precisely: an exit with no open call changes nothing;
   * otherwise the weight `ScaleFactor * (time - prevStartTime)` is added to the
   * one entry keyed by the stack as it was before the record (created if
   * absent), no other entry changes, an exit pops exactly the innermost call,
   * and the record's time becomes the previous timestamp.
   */
  lemma StepAccounting(a: Aggregate, r: Record)
    ensures r.isExit && a.callStack.stack == [] ==> Step(a, r) == a
    ensures !(r.isExit && a.callStack.stack == []) ==>
              var b := Step(a, r);
              var key := a.callStack.stack;
              && b.prevStartTime == r.time
              && b.stacks.Keys == a.stacks.Keys + {key}
              && b.stacks[key] == (if key in a.stacks then a.stacks[key] else 0.0)
                                  + ScaleFactor * (r.time - a.prevStartTime)
              && (forall k | k in a.stacks && k != key :: b.stacks[k] == a.stacks[k])
              && (r.isExit ==> b.callStack.stack + [key[|key| - 1]] == key)
  {
  }

  /**
   * An entry record pushes the frame its columns name: `name(file)` for an
   * inclusion call, the bare name for any other call (though the line has a
   * file column), and nothing when the name or file column is missing.
   */
  lemma EntryPushes(a: Aggregate, lead: string, ts: seq<string>, seps: seq<string>, parseTime: TimeParser)
    requires Calls.Valid(a.callStack)
    requires LaidOut(lead, ts, seps)
    requires |ts| >= 4 && ts[2] == "0" && parseTime(ts[3]).Some?
    ensures ParseRecord(lead + Spaced(ts, seps), parseTime).Event?
    ensures var b := Step(a, ParseRecord(lead + Spaced(ts, seps), parseTime).record);
            var s := b.callStack.stack;
            && (|ts| < 8 ==> s == a.callStack.stack)
            && (|ts| >= 8 ==>
                  && |s| == |a.callStack.stack| + 1
                  && s[..|s| - 1] == a.callStack.stack
                  && s[|s| - 1] < |b.callStack.interned|
                  && b.callStack.interned[s[|s| - 1]] ==
                       if ts[5] in IncludeCalls then Calls.WithPath(ts[5], ts[7]) else Calls.WithoutPath(ts[5]))
  {
    ParseRecordColumns(lead, ts, seps, parseTime);
    var r := ParseRecord(lead + Spaced(ts, seps), parseTime).record;
    if |ts| >= 8 {
      if ts[5] in IncludeCalls {
        EnterWithPathValid(a.callStack, ts[5], ts[7]);
      } else {
        EnterWithoutPathValid(a.callStack, ts[5]);
      }
      var s := Step(a, r).callStack.stack;
      assert s[..|s| - 1] == a.callStack.stack;
    }
  }

  /**
   * The driver gives a frame a file only for the four inclusion calls, none of
   * which contains `(`: two such frames display alike only when they are the
   * same call of the same file.
   */
  lemma IncludeFramesInjective(n1: string, p1: string, n2: string, p2: string)
    requires n1 in IncludeCalls && n2 in IncludeCalls
    requires DisplayName(Calls.WithPath(n1, p1)) == DisplayName(Calls.WithPath(n2, p2))
    ensures n1 == n2 && p1 == p2
  {
    WithPathInjective(n1, p1, n2, p2);
  }

  /**
   * A bare call whose name token holds `(` can display exactly like an
   * inclusion frame; `WithoutPathNeverParenthesised` excludes this case.
   */
  lemma BareNameMayLookLikeInclusion()
    ensures DisplayName(Calls.WithoutPath("require(x)")) == DisplayName(Calls.WithPath("require", "x"))
  {
  }

  /** The consistency the driver keeps: the call stack's tables agree, and every charged stack names interned calls. */
  ghost predicate ValidAggregate(a: Aggregate) {
    && Calls.Valid(a.callStack)
    && forall key | key in a.stacks :: ValidIds(a.callStack.interned, key)
  }

  lemma {:induction false} StepValid(a: Aggregate, r: Record)
    requires ValidAggregate(a)
    ensures ValidAggregate(Step(a, r))
  {
    var b := Step(a, r);
    if !(r.isExit && a.callStack.stack == []) {
      if !r.isExit && r.name.Some? && r.path.Some? {
        if r.name.value in IncludeCalls {
          EnterWithPathValid(a.callStack, r.name.value, r.path.value);
        } else {
          EnterWithoutPathValid(a.callStack, r.name.value);
        }
      }
      assert a.callStack.interned <= b.callStack.interned;
      forall key | key in b.stacks
        ensures ValidIds(b.callStack.interned, key)
      {
        assert ValidIds(a.callStack.interned, key);
      }
    }
  }

  lemma {:induction false} RunValid(lines: seq<string>, parseTime: TimeParser)
    ensures Run(lines, parseTime).Ok? ==> ValidAggregate(Run(lines, parseTime).value)
    decreases |lines|
  {
    if lines == [] {
      EmptyCallStackValid();
    } else {
      RunValid(lines[..|lines| - 1], parseTime);
      var prefix := Run(lines[..|lines| - 1], parseTime);
      if prefix.Ok? {
        var p := ParseRecord(lines[|lines| - 1], parseTime);
        if p.Event? {
          StepValid(prefix.value, p.record);
        }
      }
    }
  }

  /** A fatal line aborts the run: nothing after it matters. */
  lemma {:induction false} RunFailureSticks(xs: seq<string>, ys: seq<string>, parseTime: TimeParser)
    requires Run(xs, parseTime).Failure?
    ensures Run(xs + ys, parseTime) == Run(xs, parseTime)
    decreases |ys|
  {
    if ys != [] {
      var init := ys[..|ys| - 1];
      assert (xs + ys)[..|xs + ys| - 1] == xs + init;
      RunFailureSticks(xs, init, parseTime);
    } else {
      assert xs + ys == xs;
    }
  }

  /** Running one more line: the definition of `Run`, stated for a slice of the file. */
  lemma RunExtend(lines: seq<string>, from: nat, j: nat, parseTime: TimeParser)
    requires from <= j < |lines|
    ensures Run(lines[from..j + 1], parseTime) ==
              match Run(lines[from..j], parseTime)
              case Failure(f) => Failure(f)
              case Ok(a) =>
                match ParseRecord(lines[j], parseTime)
                case Blank => Ok(a)
                case Fatal(f) => Failure(f)
                case Event(r) => Ok(Step(a, r))
  {
    var s := lines[from..j + 1];
    assert s != [] && s[..|s| - 1] == lines[from..j] && s[|s| - 1] == lines[j];
  }

  /** A fatal line inside the slice `from..end` makes the run of the whole slice fail with its fault. */
  lemma FatalLineAborts(lines: seq<string>, from: nat, j: nat, end: nat, parseTime: TimeParser)
    requires from <= j < end <= |lines|
    requires Run(lines[from..j], parseTime).Ok?
    requires ParseRecord(lines[j], parseTime).Fatal?
    ensures Run(lines[from..end], parseTime) == Failure(ParseRecord(lines[j], parseTime).fault)
  {
    var done, rest := lines[from..j + 1], lines[j + 1..end];
    RunExtend(lines, from, j, parseTime);
    assert lines[from..end] == done + rest;
    RunFailureSticks(done, rest, parseTime);
  }

  /** A line with fewer than two tokens after the first two columns changes nothing. */
  lemma BlankLineIgnored(xs: seq<string>, line: string, parseTime: TimeParser)
    requires |Tokens(line)| < 4
    ensures Run(xs + [line], parseTime) == Run(xs, parseTime)
  {
    assert (xs + [line])[..|xs|] == xs;
  }

  /** Sum of all weights in a map. */
  ghost function Total(m: map<seq<nat>, real>): real
    decreases |m|
  {
    if m == map[] then 0.0
    else
      var k :| k in m;
      m[k] + Total(m - {k})
  }

  /** The sum does not depend on which entry is taken out first. */
  lemma {:induction false} TotalRemove(m: map<seq<nat>, real>, k: seq<nat>)
    requires k in m
    ensures Total(m) == m[k] + Total(m - {k})
    decreases |m|
  {
    var j :| j in m && Total(m) == m[j] + Total(m - {j});
    if j != k {
      var mj, mk := m - {j}, m - {k};
      TotalRemove(mj, k);
      TotalRemove(mk, j);
      assert mj - {k} == mk - {j};
    }
  }

  /** Charging a weight to one entry raises the sum by exactly that weight. */
  lemma TotalCharge(m: map<seq<nat>, real>, key: seq<nat>, weight: real)
    ensures Total(Charge(m, key, weight)) == Total(m) + weight
  {
    var c := Charge(m, key, weight);
    TotalRemove(c, key);
    assert c - {key} == m - {key};
    if key in m {
      TotalRemove(m, key);
    } else {
      assert m - {key} == m;
    }
  }

  /** One record keeps the weights summing to `ScaleFactor` times the last timestamp. */
  lemma StepConserves(a: Aggregate, r: Record)
    requires Total(a.stacks) == ScaleFactor * a.prevStartTime
    ensures Total(Step(a, r).stacks) == ScaleFactor * Step(a, r).prevStartTime
  {
    if !(r.isExit && a.callStack.stack == []) {
      var weight := ScaleFactor * (r.time - a.prevStartTime);
      TotalCharge(a.stacks, a.callStack.stack, weight);
      assert Step(a, r).stacks == Charge(a.stacks, a.callStack.stack, weight);
    }
  }

  /**
   * Conservation: after any run the weights sum to `ScaleFactor` times the
   * last timestamp, since the charged durations telescope from time 0.
   */
  lemma {:induction false} RunConserves(lines: seq<string>, parseTime: TimeParser)
    ensures Run(lines, parseTime).Ok? ==>
              Total(Run(lines, parseTime).value.stacks) == ScaleFactor * Run(lines, parseTime).value.prevStartTime
    decreases |lines|
  {
    if lines != [] {
      var init := lines[..|lines| - 1];
      RunConserves(init, parseTime);
      var prefix := Run(init, parseTime);
      if prefix.Ok? {
        var p := ParseRecord(lines[|lines| - 1], parseTime);
        if p.Event? {
          StepConserves(prefix.value, p.record);
        }
      }
    }
  }

  /** One report line: the folded name of `key`, a space, and its weight as `formatWeight` prints it. */
  function ReportLine(interned: seq<Call>, stacks: map<seq<nat>, real>, key: seq<nat>,
                      formatWeight: real -> string): string
    requires key in stacks && ValidIds(interned, key)
  {
    FoldedName(interned, key) + " " + formatWeight(stacks[key])
  }

  /** `order` lists every key of `keys` exactly once. */
  predicate Enumerates(order: seq<seq<nat>>, keys: set<seq<nat>>) {
    && (forall i, j | 0 <= i < j < |order| :: order[i] != order[j])
    && (forall i | 0 <= i < |order| :: order[i] in keys)
    && (forall k | k in keys :: k in order)
  }

  /** Listing one more key keeps the listing exact. */
  lemma EnumeratesAppend(order: seq<seq<nat>>, keys: set<seq<nat>>, key: seq<nat>)
    requires Enumerates(order, keys) && key !in keys
    ensures Enumerates(order + [key], keys + {key})
  {
    forall k | k in keys + {key}
      ensures k in order + [key]
    {
      if k != key {
        assert k in order;
      }
    }
  }

  /** Reporting one more key appends its line. */
  lemma ReportLinesAppend(interned: seq<Call>, stacks: map<seq<nat>, real>, order: seq<seq<nat>>, key: seq<nat>,
                          formatWeight: real -> string)
    requires Reportable(interned, stacks, order) && key in stacks && ValidIds(interned, key)
    ensures Reportable(interned, stacks, order + [key])
    ensures ReportLines(interned, stacks, order + [key], formatWeight)
            == ReportLines(interned, stacks, order, formatWeight) + [ReportLine(interned, stacks, key, formatWeight)]
  {
    assert forall n | 0 <= n < |order| :: (order + [key])[n] == order[n];
  }

  /** First phase of the driver: the index of the line that opens the trace, or `|lines|` if none does. */
  method FindTraceStart(lines: seq<string>) returns (i: nat)
    ensures i == FirstMatch(lines, TraceStart, 0)
  {
    i := 0;
    while i < |lines| && !Contains(lines[i], TraceStart)
      invariant i <= |lines|
      invariant forall k | 0 <= k < i :: !Contains(lines[k], TraceStart)
    {
      i := i + 1;
    }
    FirstMatchUnique(lines, TraceStart, 0, i);
  }

  /**
   * The effect of one usable record on the driver's state: charge the elapsed
   * time to the open stack, then pop or push; an exit with no open call is
   * discarded.
   */
  method ApplyRecord(r: Record, stacks: map<seq<nat>, real>, currentStack: CallStack, prevStartTime: real)
    returns (stacks': map<seq<nat>, real>, prevStartTime': real)
    modifies currentStack
    ensures Aggregate(stacks', currentStack.Value(), prevStartTime')
            == Step(Aggregate(stacks, old(currentStack.Value()), prevStartTime), r)
  {
    ghost var next := Step(Aggregate(stacks, currentStack.Value(), prevStartTime), r);
    stacks', prevStartTime' := stacks, prevStartTime;
    if r.isExit && currentStack.IsEmpty() {
      // An exit with no matching entry: the record is discarded.
      return;
    }
    var current := currentStack.Current();
    var duration := ScaleFactor * (r.time - prevStartTime);
    assert next.stacks == Charge(stacks, current, duration);
    if current in stacks {
      stacks' := stacks[current := stacks[current] + duration];
    } else {
      stacks' := stacks[current := duration];
    }
    if r.isExit {
      currentStack.Pop();
    } else if r.name.Some? && r.path.Some? {
      if r.name.value in IncludeCalls {
        currentStack.CallWithPath(r.name.value, r.path.value);
      } else {
        currentStack.CallWithoutPath(r.name.value);
      }
    }
    prevStartTime' := r.time;
  }

  /**
   * Second phase of the driver: process the record lines from `from` up to
   * the line that closes the trace (or the end of the file). A fatal record
   * stops at once with its fault; otherwise the weights, the call stack and
   * the last timestamp are those `Run` gives for those lines.
   */
  method ProcessRecords(lines: seq<string>, from: nat, parseTime: TimeParser)
    returns (failure: Option<Fault>, stacks: map<seq<nat>, real>, currentStack: CallStack, prevStartTime: real)
    requires from <= |lines|
    ensures var spec := Run(lines[from..FirstMatch(lines, TraceEnd, from)], parseTime);
            && (spec.Failure? <==> failure.Some?)
            && (spec.Failure? ==> failure.value == spec.error)
            && (spec.Ok? ==> spec.value == Aggregate(stacks, currentStack.Value(), prevStartTime))
  {
    stacks := map[];
    currentStack := new CallStack();
    prevStartTime := 0.0;
    ghost var end := FirstMatch(lines, TraceEnd, from);
    var j := from;
    assert lines[from..j] == [];
    assert Run(lines[from..j], parseTime) == Ok(Aggregate(stacks, currentStack.Value(), prevStartTime));
    while j < |lines|
      invariant from <= j <= end
      invariant Run(lines[from..j], parseTime) == Ok(Aggregate(stacks, currentStack.Value(), prevStartTime))
      decreases |lines| - j
    {
      var line := lines[j];
      if Contains(line, TraceEnd) {
        break;
      }
      assert j < end;
      ghost var prior := Aggregate(stacks, currentStack.Value(), prevStartTime);
      RunExtend(lines, from, j, parseTime);
      var parsed := ParseRecord(line, parseTime);
      if parsed.Fatal? {
        FatalLineAborts(lines, from, j, end, parseTime);
        return Some(parsed.fault), stacks, currentStack, prevStartTime;
      }
      if parsed.Event? {
        stacks, prevStartTime := ApplyRecord(parsed.record, stacks, currentStack, prevStartTime);
        assert Run(lines[from..j + 1], parseTime) == Ok(Step(prior, parsed.record));
      } else {
        assert Run(lines[from..j + 1], parseTime) == Ok(prior);
      }
      j := j + 1;
    }
    assert j == end;
    failure := None;
  }

  /** Every key in `order` is charged and names interned calls. */
  ghost predicate Reportable(interned: seq<Call>, stacks: map<seq<nat>, real>, order: seq<seq<nat>>) {
    forall n | 0 <= n < |order| :: order[n] in stacks && ValidIds(interned, order[n])
  }

  /** The report lines for the keys `order`, in that order. */
  function ReportLines(interned: seq<Call>, stacks: map<seq<nat>, real>, order: seq<seq<nat>>,
                       formatWeight: real -> string): (lines: seq<string>)
    requires Reportable(interned, stacks, order)
    ensures |lines| == |order|
  {
    seq(|order|, n requires 0 <= n < |order| => ReportLine(interned, stacks, order[n], formatWeight))
  }

  /**
   * Third phase of the driver: one report line per distinct stack, in an
   * unspecified order (the source iterates a hash map), which `order` records.
   */
  method WriteReport(stacks: map<seq<nat>, real>, currentStack: CallStack, formatWeight: real -> string)
    returns (output: seq<string>, ghost order: seq<seq<nat>>)
    requires forall key | key in stacks :: ValidIds(currentStack.interned, key)
    ensures Enumerates(order, stacks.Keys)
    ensures Reportable(currentStack.interned, stacks, order)
    ensures output == ReportLines(currentStack.interned, stacks, order, formatWeight)
  {
    output := [];
    order := [];
    var remaining := stacks.Keys;
    while remaining != {}
      invariant remaining <= stacks.Keys
      invariant Enumerates(order, stacks.Keys - remaining)
      invariant Reportable(currentStack.interned, stacks, order)
      invariant output == ReportLines(currentStack.interned, stacks, order, formatWeight)
      decreases |remaining|
    {
      var key :| key in remaining;
      var name := currentStack.WriteName(key, "");
      assert name == FoldedName(currentStack.interned, key);
      EnumeratesAppend(order, stacks.Keys - remaining, key);
      ReportLinesAppend(currentStack.interned, stacks, order, key, formatWeight);
      output := output + [name + " " + formatWeight(stacks[key])];
      order := order + [key];
      assert stacks.Keys - (remaining - {key}) == (stacks.Keys - remaining) + {key};
      remaining := remaining - {key};
    }
  }

  /**
   * Collapse the trace `lines` into report lines (the source's `handle_file`).
   * A fatal record aborts with its fault and no output; otherwise there is one
   * line per distinct stack, in the order `order` records.
   */
  method HandleFile(lines: seq<string>, parseTime: TimeParser, formatWeight: real -> string)
    returns (result: Result<seq<string>, Fault>, ghost order: seq<seq<nat>>)
    ensures CollapseTrace(lines, parseTime).Failure? ==>
              result == Failure(CollapseTrace(lines, parseTime).error)
    ensures CollapseTrace(lines, parseTime).Ok? ==>
              var a := CollapseTrace(lines, parseTime).value;
              && result.Ok?
              && Enumerates(order, a.stacks.Keys)
              && |result.value| == |order|
              && forall n | 0 <= n < |order| ::
                   && order[n] in a.stacks
                   && ValidIds(a.callStack.interned, order[n])
                   && result.value[n] == ReportLine(a.callStack.interned, a.stacks, order[n], formatWeight)
  {
    var start := FindTraceStart(lines);
    // At the end of the file, reading on finds nothing more.
    var from := if start < |lines| then start + 1 else start;
    assert Region(lines) == lines[from..FirstMatch(lines, TraceEnd, from)];
    var failure, stacks, currentStack, prevStartTime := ProcessRecords(lines, from, parseTime);
    if failure.Some? {
      return Failure(failure.value), [];
    }
    ghost var final := Aggregate(stacks, currentStack.Value(), prevStartTime);
    RunValid(Region(lines), parseTime);
    var output;
    output, order := WriteReport(stacks, currentStack, formatWeight);
    result := Ok(output);
    assert forall n | 0 <= n < |order| :: output[n] == ReportLine(final.callStack.interned, final.stacks, order[n], formatWeight);
  }
}
