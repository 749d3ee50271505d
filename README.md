# Xdebug trace collapser, modelled in Dafny

This project models inferno's Xdebug collapser (`src/collapse/xdebug.rs`). The
collapser reads an Xdebug function trace and writes one folded-stack line per
distinct call stack: the frames joined by `;`, root first, then a space and
the total time spent with exactly that stack open, in microseconds.

It is built from three pieces, and the model follows them:

- **`CallStack`**: an interner plus the stack of open calls.
  - `Calls` describes its content as a value. The `withPath` and `withoutPath` maps hand out ids. The ids index the append-only `interned` table. `stack` holds the ids of the open calls.
  - `Calls` also gives each operation as a function on that value, together with the consistency invariant `Valid` and its preservation.
  - `CallStacks.CallStack` is a class with the same four fields. Its methods update them in place and are proved to do exactly what those functions say.
- **The trace driver `handle_file`**:
  - `Text` gives whitespace tokenising and the marker substring test.
  - `Records` parses one record line and locates the region between `TRACE START` and `TRACE END`.
  - `Xdebug` holds the accounting. `Step` is the effect of one record and `Run` folds it over the region. The method `HandleFile` is split into the phases `FindTraceStart`, `ProcessRecords` (with `ApplyRecord`) and `WriteReport`. It is proved to compute `Run`'s result and report it.
- **The report writer**: `WriteName` and the report loop.
  - `FoldedName` is the joined display names.
  - `WriteReport` emits one line per map entry. It records in a ghost `order` the entry order that the hash map's iteration happens to produce.

Modelling choices:

- Timestamps and weights are exact reals, and `ScaleFactor` is `1000000.0`.
- The `f32` timestamp parser is a parameter `parseTime: string -> Option<real>`. The number formatting of `writeln!` is a parameter `formatWeight: real -> string`.
- The input is the file's lines, without line terminators. The output is the sequence of lines written.
- The two panics become a `Failure`:
  - an exit flag other than `0`/`1`;
  - the `unwrap` of a timestamp that does not parse.
- A failed run produces no output, because the source writes nothing before the record loop ends.

## Model

| member | source | states |
|---|---|---|
| Calls.WithPath | src/collapse/xdebug.rs:119-121 | the frame of an inclusion call: its display text is the name, `(`, the file and `)` |
| Calls.WithoutPath | src/collapse/xdebug.rs:123-125 | the frame of any other call: its display text is the bare name |
| Calls.DisplayName | src/collapse/xdebug.rs:127-129 | the text a frame is shown as |
| Calls.FoldedName | src/collapse/xdebug.rs:172-180 | the display names of the ids joined by `;`, root first, `""` for no ids; `WriteName` is proved to produce it and `FoldedNameSplits` inverts it |
| Calls.WithPathInjective | src/collapse/xdebug.rs:119-129 | an inclusion frame displays as `name(path)`, so two such frames with the same display text have the same name and path when no name contains `(` |
| Calls.WithoutPathNeverParenthesised | src/collapse/xdebug.rs:119-129 | a bare frame whose name has no `(` never displays like an inclusion frame |
| Calls.EmptyCallStackValid | src/collapse/xdebug.rs:15-21 | the default call stack (empty maps, table and stack) satisfies the consistency invariant |
| Calls.EnterWithPath | src/collapse/xdebug.rs:133-143 | the key `(name, path)` ends up in `withPath` and its id is pushed; an existing key changes no table; a new key gets id `|interned|` and `interned` grows by exactly `name(path)`; `withoutPath` is untouched |
| Calls.EnterWithoutPath | src/collapse/xdebug.rs:145-155 | the same for a bare name in `withoutPath`, leaving `withPath` untouched |
| Calls.Popped | src/collapse/xdebug.rs:157-159 | an empty stack is left as it is; otherwise exactly the top id is removed; the tables never change and consistency is kept |
| Calls.EnterWithPathValid | src/collapse/xdebug.rs:136-142 | interning keeps every map id a valid index whose call displays its key, keeps ids distinct and the stack valid; the pushed id resolves to `name(path)` |
| Calls.EnterWithoutPathValid | src/collapse/xdebug.rs:146-154 | the same for a bare call; the pushed id resolves to `name` |
| Calls.EnterWithPathIdempotent | src/collapse/xdebug.rs:136-142 | entering the same `(name, path)` again changes no table and pushes the same id again |
| Calls.EnterWithoutPathIdempotent | src/collapse/xdebug.rs:147-149 | entering the same bare name again changes no table and pushes the same id again |
| Calls.PoppedAfterEnter | src/collapse/xdebug.rs:142-158 | popping right after either kind of entry restores the stack |
| Calls.FoldedNameSnoc | src/collapse/xdebug.rs:174-179 | the folded text of one more id is the old text, `;` and that call's display name (no `;` for the first id) |
| Calls.FoldedNameExtend | src/collapse/xdebug.rs:177-179 | each later id extends the folded text of the prefix by `;` and its display name |
| Calls.FoldedNameSplits | src/collapse/xdebug.rs:172-180 | an empty stack folds to `""`; otherwise splitting the folded text at `;` gives back the display names, root first, when none contains `;` |
| CallStacks.CallStack.constructor | src/collapse/xdebug.rs:15-21 | a new call stack holds the empty state, which is consistent |
| CallStacks.CallStack.CallWithPath | src/collapse/xdebug.rs:133-143 | updates the fields in place exactly as `EnterWithPath` says, and keeps the consistency invariant |
| CallStacks.CallStack.CallWithoutPath | src/collapse/xdebug.rs:145-155 | updates the fields in place exactly as `EnterWithoutPath` says, including the early return for a known name, and keeps the consistency invariant |
| CallStacks.CallStack.Pop | src/collapse/xdebug.rs:157-159 | updates the stack in place exactly as `Popped` says, and keeps the consistency invariant |
| CallStacks.CallStack.IsEmpty | src/collapse/xdebug.rs:161-163 | true exactly when popping would change nothing |
| CallStacks.CallStack.Current | src/collapse/xdebug.rs:165-167 | the open ids, which on a consistent stack are valid indices into `interned` |
| CallStacks.CallStack.WriteName | src/collapse/xdebug.rs:172-180 | appends to the buffer exactly the display names of the ids joined by `;`, root first (nothing for no ids) |
| Text.Tokens | src/collapse/xdebug.rs:59 | every token of a line is a non-empty run without whitespace |
| Text.TokensOfSpaced | src/collapse/xdebug.rs:59 | splitting a line made of words, with any leading whitespace and any non-empty whitespace runs (tabs included) between and after them, recovers exactly those words, in order |
| Text.LaidOutTokens | src/collapse/xdebug.rs:59 | every line is such a layout of its own tokens, so the statements made over layouts cover every line |
| Text.Contains | src/collapse/xdebug.rs:41-55 | the marker test of both loops (lines 41 and 55): whether the literal pattern occurs in the line; characterized by `ContainsOccurs` |
| Text.ContainsOccurs | src/collapse/xdebug.rs:41 | the marker test holds exactly when the marker occurs at some position of the line |
| Text.SplitOnJoin | src/collapse/xdebug.rs:174-179 | joining `;`-free parts with `;` and splitting again recovers the parts |
| Records.ParseRecord | src/collapse/xdebug.rs:59-74 | reads one record line into a blank, a fault or a record; `ParseRecordColumns` states its cases |
| Records.Region | src/collapse/xdebug.rs:36-57 | the lines the record loop processes: none of them contains `TRACE END`, and there are fewer of them than lines in the file; `RegionBetweenMarkers` pins them down |
| Records.ParseRecordColumns | src/collapse/xdebug.rs:59-74 | for a line laid out from words `ts` with any whitespace: fewer than four tokens make a blank line; a flag other than `0`/`1` is fatal before the time is read; an unparsable time is fatal; otherwise the record carries the flag, the time, and tokens 6 and 8 as name and file exactly when present |
| Records.FirstMatch | src/collapse/xdebug.rs:36-46 | the index of the first line at or after `from` containing the marker, or the line count when there is none |
| Records.FirstMatchUnique | src/collapse/xdebug.rs:36-46 | any index meeting that description is the one found |
| Records.RegionBetweenMarkers | src/collapse/xdebug.rs:36-57 | the processed lines are exactly those after the first `TRACE START` line, up to the next `TRACE END` line or the end of the file |
| Records.RegionWithoutStart | src/collapse/xdebug.rs:36-53 | without a `TRACE START` line nothing is processed |
| Xdebug.Charge | src/collapse/xdebug.rs:84-88 | adds a weight to the entry for a key, creating it if absent: the keys gain exactly that key, its value is the old value (or 0) plus the weight, and every other entry is unchanged |
| Xdebug.Enter | src/collapse/xdebug.rs:94-103 | the effect of an entry on the call stack: `name(file)` for the inclusion calls, the bare name otherwise, nothing without both columns; stated by `EntryPushes` |
| Xdebug.Step | src/collapse/xdebug.rs:76-106 | the effect of one usable record; stated by `StepAccounting` and kept consistent and conserving by `StepValid` and `StepConserves` |
| Xdebug.Run | src/collapse/xdebug.rs:48-107 | the record loop as a fold over the lines, in order, stopping at the first fatal line; `ProcessRecords` is proved to compute it |
| Xdebug.CollapseTrace | src/collapse/xdebug.rs:23-107 | `Run` over the region between the markers; `HandleFile` reports it |
| Xdebug.StepAccounting | src/collapse/xdebug.rs:76-106 | an exit on an empty stack changes nothing; otherwise the weight `ScaleFactor * (time - prev)` is added to the one entry keyed by the stack before the record (created if absent), no other entry changes, an exit pops exactly the top, and the time becomes the previous timestamp |
| Xdebug.EntryPushes | src/collapse/xdebug.rs:94-103 | an entry with fewer than 8 tokens pushes nothing; otherwise it pushes exactly one frame, `name(file)` for the four inclusion calls and the bare name for any other call |
| Xdebug.IncludeFramesInjective | src/collapse/xdebug.rs:97-99 | frames with a file are made only for the four inclusion calls, and two of them display alike only when they are the same call of the same file |
| Xdebug.BareNameMayLookLikeInclusion | src/collapse/xdebug.rs:101 | a bare call named `require(x)` displays exactly like `require` of file `x` |
| Xdebug.StepValid | src/collapse/xdebug.rs:81-106 | one record keeps the call stack consistent and every charged stack made of valid ids |
| Xdebug.RunValid | src/collapse/xdebug.rs:48-107 | the same after any run of records |
| Xdebug.RunFailureSticks | src/collapse/xdebug.rs:63-69 | once a run has failed, the lines after it do not matter |
| Xdebug.FatalLineAborts | src/collapse/xdebug.rs:63-69 | a fatal line aborts the whole region with its fault |
| Xdebug.BlankLineIgnored | src/collapse/xdebug.rs:72-73 | a line with too few tokens changes no state |
| Xdebug.TotalRemove | src/collapse/xdebug.rs:84-88 | the sum of the weights does not depend on which entry is taken first |
| Xdebug.TotalCharge | src/collapse/xdebug.rs:84-88 | charging a weight to one entry, new or existing, raises the sum by exactly that weight |
| Xdebug.StepConserves | src/collapse/xdebug.rs:81-106 | one record keeps the sum of weights equal to `ScaleFactor` times the previous timestamp |
| Xdebug.RunConserves | src/collapse/xdebug.rs:28-107 | after any run the weights sum to `ScaleFactor` times the last timestamp, since durations telescope from 0 |
| Xdebug.EnumeratesAppend | src/collapse/xdebug.rs:109 | listing one more unlisted key keeps the listing exact |
| Xdebug.ReportLine | src/collapse/xdebug.rs:110-112 | one report line: the folded name of the key, a space, and its weight as formatted |
| Xdebug.ReportLines | src/collapse/xdebug.rs:109-113 | the report lines for a listing of keys, one per key, in that order |
| Xdebug.ReportLinesAppend | src/collapse/xdebug.rs:109-113 | reporting one more key appends its line |
| Xdebug.FindTraceStart | src/collapse/xdebug.rs:36-46 | the first loop stops at the first `TRACE START` line, or at the end of the file |
| Xdebug.ApplyRecord | src/collapse/xdebug.rs:76-106 | the driver's state after one record is exactly `Step` of the state before |
| Xdebug.ProcessRecords | src/collapse/xdebug.rs:48-107 | the record loop fails exactly when `Run` of the lines up to `TRACE END` fails, with the same fault; otherwise its weights, call stack and last time are `Run`'s |
| Xdebug.WriteReport | src/collapse/xdebug.rs:109-113 | one line per map entry, each entry exactly once, each line the entry's folded name, a space and its weight |
| Xdebug.HandleFile | src/collapse/xdebug.rs:23-116 | a fatal record gives its fault and no output; otherwise the output lists every distinct stack of the collapsed trace once, as its folded name and its weight |

## Left out

- Floating point: `f32` parsing and arithmetic are modelled with exact reals. The parser is a parameter that may fail, so rounding and the loss of precision in long traces are not modelled. Conservation (`Xdebug.RunConserves`) holds for exact arithmetic only.
- Number formatting in `writeln!` is a parameter `formatWeight`.
- `Regex` matching of `TRACE START` / `TRACE END` is modelled as a literal substring test. Both patterns contain no regex metacharacters.
- Reading the byte stream line by line (`read_line`, line terminators, invalid UTF-8) is not modelled. The input is a sequence of lines, and the line terminator never matters to `split_whitespace` or to the marker test.
- `io::Error` from reading or writing is not modelled.
- The `eprintln!` warning for a discarded exit is not modelled. The discarded record itself is modelled.
- Hashing is replaced by Dafny maps:
  - the `get_mut`-then-`insert` branching is modelled in `ApplyRecord`, but the boxed copy of the key is not;
  - the hash map's iteration order is not; `WriteReport` takes the order as the entries happen to be chosen and records it in a ghost `order`.
- `Options` is an empty struct and is not modelled. The source implements only time weighting.
- `src/bin/collapse-xdebug.rs` (command-line parsing, opening files, buffering, the allocator) is not part of this model.
- Calls.WithPathInjective: stated only for names without `(`. The driver gives a file only to the four inclusion calls, none of which contains `(`, so every frame with a file it creates is covered (`Xdebug.IncludeFramesInjective`). A collision remains possible between a bare call whose name token contains `(` and an inclusion frame: `require(x)` displays exactly like `require` of file `x` (`Xdebug.BareNameMayLookLikeInclusion`). `Calls.WithoutPathNeverParenthesised` requires that the bare name has no `(`, and that requirement excludes exactly this case. The report then prints two different frames with the same text.
