/**
 * Reading an Xdebug function trace: which lines of the file are records, and
 * what one record line says.
 *
 * A record line is split into whitespace-separated tokens. The first two
 * (record id and depth) are ignored; the third is the exit flag (`1` for a
 * function exit, `0` for an entry) and the fourth the timestamp. Of an entry,
 * the sixth token is the function name and the eighth the included file.
 */
module Records {
  import opened Wrappers
  import opened Text

  /** Calls whose frame carries the included file: `require`, `require_once`, `include`, `include_once`. */
  const IncludeCalls: seq<string> := ["require", "require_once", "include", "include_once"]

  const TraceStart: string := "TRACE START"
  const TraceEnd: string := "TRACE END"

  /**
   * Reads a timestamp token, or fails. The source uses Rust's `f32` parser;
   * the model takes the parser as a parameter and works with exact reals.
   */
  type TimeParser = string -> Option<real>

  /** One usable record: exit or entry, its timestamp, and the name and file columns when present. */
  datatype Record = Record(isExit: bool, time: real, name: Option<string>, path: Option<string>)

  /** Why a record line aborts the run. */
  datatype Fault =
    | BadExitFlag(flag: string)  // the exit-flag column is neither `0` nor `1`
    | BadTimestamp(text: string) // the timestamp column does not parse

  datatype Parsed =
    | Blank                      // fewer than two tokens after the first two: ignored
    | Event(record: Record)
    | Fatal(fault: Fault)

  /** Read one record line. */
  function ParseRecord(line: string, parseTime: TimeParser): Parsed {
    var tokens := Tokens(line);
    if |tokens| < 4 then Blank
    else
      var flag, stamp := tokens[2], tokens[3];
      if flag != "1" && flag != "0" then Fatal(BadExitFlag(flag))
      else
        match parseTime(stamp)
        case None => Fatal(BadTimestamp(stamp))
        case Some(time) =>
          Event(Record(flag == "1", time,
                       if |tokens| > 5 then Some(tokens[5]) else None,
                       if |tokens| > 7 then Some(tokens[7]) else None))
  }

  /**
   * The columns of a record, stated on any line whose tokens are `ts`
   * separated by arbitrary whitespace (every line is one; see
   * `LaidOutTokens`): too few columns give a blank, a bad exit flag is
   * reported before the timestamp is read, and an entry's name and file are
   * the sixth and eighth words when the line has them.
   */
  lemma ParseRecordColumns(lead: string, ts: seq<string>, seps: seq<string>, parseTime: TimeParser)
    requires LaidOut(lead, ts, seps)
    ensures var p := ParseRecord(lead + Spaced(ts, seps), parseTime);
            && (|ts| < 4 <==> p.Blank?)
            && (|ts| >= 4 && ts[2] != "0" && ts[2] != "1" ==> p == Fatal(BadExitFlag(ts[2])))
            && (|ts| >= 4 && (ts[2] == "0" || ts[2] == "1") && parseTime(ts[3]).None? ==>
                  p == Fatal(BadTimestamp(ts[3])))
            && (|ts| >= 4 && (ts[2] == "0" || ts[2] == "1") && parseTime(ts[3]).Some? ==>
                  && p.Event?
                  && p.record.isExit == (ts[2] == "1")
                  && p.record.time == parseTime(ts[3]).value
                  && (p.record.name.Some? <==> |ts| >= 6)
                  && (p.record.name.Some? ==> p.record.name.value == ts[5])
                  && (p.record.path.Some? <==> |ts| >= 8)
                  && (p.record.path.Some? ==> p.record.path.value == ts[7]))
  {
    TokensOfSpaced(lead, ts, seps);
  }

  /** Index of the first line at or after `from` that contains `pat`, or `|lines|` if there is none. */
  function FirstMatch(lines: seq<string>, pat: string, from: nat): (i: nat)
    requires from <= |lines|
    ensures from <= i <= |lines|
    ensures forall k | from <= k < i :: !Contains(lines[k], pat)
    ensures i < |lines| ==> Contains(lines[i], pat)
    decreases |lines| - from
  {
    if from == |lines| || Contains(lines[from], pat) then from else FirstMatch(lines, pat, from + 1)
  }

  /**
   * The record lines of a trace: those after the first line containing
   * `TRACE START`, up to but not including the next line containing
   * `TRACE END`, or to the end of the file.
   */
  function Region(lines: seq<string>): (region: seq<string>)
    ensures |region| < |lines| || lines == []
    ensures forall k | 0 <= k < |region| :: !Contains(region[k], TraceEnd)
  {
    var start := FirstMatch(lines, TraceStart, 0);
    if start == |lines| then [] else lines[start + 1..FirstMatch(lines, TraceEnd, start + 1)]
  }

  /** A line index meeting the description of the first match is the first match. */
  lemma {:induction false} FirstMatchUnique(lines: seq<string>, pat: string, from: nat, i: nat)
    requires from <= i <= |lines|
    requires forall k | from <= k < i :: !Contains(lines[k], pat)
    requires i < |lines| ==> Contains(lines[i], pat)
    ensures FirstMatch(lines, pat, from) == i
    decreases i - from
  {
    if from < i {
      FirstMatchUnique(lines, pat, from + 1, i);
    }
  }

  /**
   * The region is exactly the run of lines `a..b` that follows the first
   * `TRACE START` line (at `a - 1`) and stops before a `TRACE END` line at `b`
   * or at the end of the file.
   */
  lemma RegionBetweenMarkers(lines: seq<string>, a: nat, b: nat)
    requires 0 < a <= b <= |lines|
    requires Contains(lines[a - 1], TraceStart)
    requires forall k | 0 <= k < a - 1 :: !Contains(lines[k], TraceStart)
    requires forall k | a <= k < b :: !Contains(lines[k], TraceEnd)
    requires b == |lines| || Contains(lines[b], TraceEnd)
    ensures Region(lines) == lines[a..b]
  {
    FirstMatchUnique(lines, TraceStart, 0, a - 1);
    FirstMatchUnique(lines, TraceEnd, a, b);
  }

  /** Without a `TRACE START` line, nothing is processed. */
  lemma RegionWithoutStart(lines: seq<string>)
    requires forall k | 0 <= k < |lines| :: !Contains(lines[k], TraceStart)
    ensures Region(lines) == []
  {
    FirstMatchUnique(lines, TraceStart, 0, |lines|);
  }
}
