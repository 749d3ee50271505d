/**
 * The string primitives the trace collapser relies on: splitting a line into
 * whitespace-separated tokens, testing whether a line contains a marker, and
 * joining frame names with a separator (with the split that undoes it).
 */
module Text {

  /** The Unicode White_Space characters, the set Rust's `char::is_whitespace` accepts. */
  predicate IsWhitespace(c: char) {
    ('\t' <= c <= '\r') || c == ' ' || c == '\U{85}' || c == '\U{A0}' || c == '\U{1680}'
    || ('\U{2000}' <= c <= '\U{200A}') || c == '\U{2028}' || c == '\U{2029}'
    || c == '\U{202F}' || c == '\U{205F}' || c == '\U{3000}'
  }

  /** A word: a non-empty run of characters none of which is whitespace. */
  predicate IsWord(t: string) {
    t != [] && forall i | 0 <= i < |t| :: !IsWhitespace(t[i])
  }

  /** Length of the longest whitespace-free prefix of `s`. */
  function WordLength(s: string): (n: nat)
    ensures n <= |s|
    ensures forall i | 0 <= i < n :: !IsWhitespace(s[i])
    ensures n < |s| ==> IsWhitespace(s[n])
  {
    if s == [] || IsWhitespace(s[0]) then 0 else 1 + WordLength(s[1..])
  }

  /**
   * The tokens of a line, left to right: the maximal whitespace-free runs
   * (Rust's `str::split_whitespace`).
   */
  function Tokens(s: string): (ts: seq<string>)
    ensures forall k | 0 <= k < |ts| :: IsWord(ts[k])
    decreases |s|
  {
    if s == [] then []
    else if IsWhitespace(s[0]) then Tokens(s[1..])
    else
      var n := WordLength(s);
      [s[..n]] + Tokens(s[n..])
  }

  /** Every character of `ws` is whitespace; the empty string is blank too. */
  predicate IsBlank(ws: string) {
    forall i | 0 <= i < |ws| :: IsWhitespace(ws[i])
  }

  /** The words `ts`, each followed by its own separator `seps[k]`. */
  function Spaced(ts: seq<string>, seps: seq<string>): string
    requires |seps| == |ts|
  {
    if ts == [] then "" else ts[0] + seps[0] + Spaced(ts[1..], seps[1..])
  }

  /**
   * `lead + Spaced(ts, seps)` is a line with words `ts`: leading whitespace
   * `lead`, and after each word a run of whitespace (tabs, spaces, any mix)
   * that may be empty only after the last word.
   */
  predicate LaidOut(lead: string, ts: seq<string>, seps: seq<string>) {
    && IsBlank(lead)
    && |seps| == |ts|
    && (forall k | 0 <= k < |ts| :: IsWord(ts[k]) && IsBlank(seps[k]))
    && (forall k | 0 <= k < |ts| - 1 :: seps[k] != [])
  }

  lemma {:induction false} WordLengthOfWord(t: string, rest: string)
    requires IsWord(t)
    requires rest == [] || IsWhitespace(rest[0])
    ensures WordLength(t + rest) == |t|
    decreases |t|
  {
    if |t| > 1 {
      assert (t + rest)[1..] == t[1..] + rest;
      WordLengthOfWord(t[1..], rest);
    } else {
      assert (t + rest)[1..] == rest;
    }
  }

  /** Leading whitespace, however long, yields no token. */
  lemma {:induction false} TokensSkipBlank(ws: string, s: string)
    requires IsBlank(ws)
    ensures Tokens(ws + s) == Tokens(s)
    decreases |ws|
  {
    if ws == [] {
      assert ws + s == s;
    } else {
      assert (ws + s)[1..] == ws[1..] + s;
      TokensSkipBlank(ws[1..], s);
    }
  }

  /** A word ended by whitespace or by the end of the line is the first token. */
  lemma TokensWord(w: string, rest: string)
    requires IsWord(w)
    requires rest == [] || IsWhitespace(rest[0])
    ensures Tokens(w + rest) == [w] + Tokens(rest)
  {
    WordLengthOfWord(w, rest);
    var s := w + rest;
    assert s[..|w|] == w && s[|w|..] == rest;
  }

  /** Splitting a line laid out from words recovers exactly those words, in order. */
  lemma {:induction false} TokensOfSpaced(lead: string, ts: seq<string>, seps: seq<string>)
    requires LaidOut(lead, ts, seps)
    ensures Tokens(lead + Spaced(ts, seps)) == ts
    decreases |ts|
  {
    TokensSkipBlank(lead, Spaced(ts, seps));
    if ts != [] {
      var tail := Spaced(ts[1..], seps[1..]);
      var rest := seps[0] + tail;
      assert Spaced(ts, seps) == ts[0] + rest;
      assert LaidOut(seps[0], ts[1..], seps[1..]);
      TokensOfSpaced(seps[0], ts[1..], seps[1..]);
      assert seps[0] == [] ==> ts[1..] == [] && tail == [] && rest == [];
      assert seps[0] != [] ==> rest[0] == seps[0][0];
      TokensWord(ts[0], rest);
      assert [ts[0]] + ts[1..] == ts;
    }
  }

  /** Every line is laid out from its own tokens: the lemma above covers all lines. */
  lemma {:induction false} LaidOutTokens(s: string) returns (lead: string, seps: seq<string>)
    ensures LaidOut(lead, Tokens(s), seps) && s == lead + Spaced(Tokens(s), seps)
    decreases |s|
  {
    if s == [] {
      lead, seps := "", [];
    } else if IsWhitespace(s[0]) {
      var lead', seps' := LaidOutTokens(s[1..]);
      lead, seps := [s[0]] + lead', seps';
      assert s == [s[0]] + s[1..];
      assert Tokens(s) == Tokens(s[1..]);
    } else {
      var n := WordLength(s);
      var w, tail := s[..n], s[n..];
      var lead', seps' := LaidOutTokens(tail);
      assert Tokens(s) == [w] + Tokens(tail);
      lead, seps := LaidOutWord(w, tail, Tokens(tail), lead', seps');
      assert s == w + tail;
    }
  }

  /** A word, then a line that starts with whitespace: the run before the rest's words separates them from the word. */
  lemma LaidOutWord(w: string, tail: string, ts: seq<string>, lead': string, seps': seq<string>)
    returns (lead: string, seps: seq<string>)
    requires IsWord(w) && (tail == [] || IsWhitespace(tail[0]))
    requires LaidOut(lead', ts, seps') && tail == lead' + Spaced(ts, seps')
    ensures LaidOut(lead, [w] + ts, seps) && w + tail == lead + Spaced([w] + ts, seps)
  {
    if ts != [] {
      SpacedHead(ts, seps');
      assert IsWhitespace(tail[0]);
    }
    lead, seps := "", [lead'] + seps';
    SpacedCons(w, lead', ts, seps');
    LaidOutCons(w, lead', ts, seps');
  }

  /** A laid-out run of words starts with the first word's first character, which is not whitespace. */
  lemma SpacedHead(ts: seq<string>, seps: seq<string>)
    requires |seps| == |ts| && ts != [] && IsWord(ts[0])
    ensures Spaced(ts, seps) != [] && Spaced(ts, seps)[0] == ts[0][0] && !IsWhitespace(Spaced(ts, seps)[0])
  {
    var rest := seps[0] + Spaced(ts[1..], seps[1..]);
    assert Spaced(ts, seps) == ts[0] + rest;
  }

  lemma SpacedCons(w: string, sep: string, ts: seq<string>, seps: seq<string>)
    requires |seps| == |ts|
    ensures Spaced([w] + ts, [sep] + seps) == w + sep + Spaced(ts, seps)
  {
    assert ([w] + ts)[1..] == ts && ([sep] + seps)[1..] == seps;
  }

  lemma LaidOutCons(w: string, sep: string, ts: seq<string>, seps: seq<string>)
    requires IsWord(w) && IsBlank(sep) && LaidOut(sep, ts, seps)
    requires ts != [] ==> sep != []
    ensures LaidOut("", [w] + ts, [sep] + seps)
  {
  }

  /** `pat` occurs in `s` starting at index `i`. */
  predicate OccursAt(s: string, pat: string, i: nat) {
    i + |pat| <= |s| && s[i..i + |pat|] == pat
  }

  /** Substring test: whether the literal pattern `pat` occurs in `s` (the marker search of the trace reader). */
  function Contains(s: string, pat: string): bool
    decreases |s|
  {
    if |s| < |pat| then false
    else if s[..|pat|] == pat then true
    else Contains(s[1..], pat)
  }

  /** `Contains` finds `pat` exactly when it occurs at some index. */
  lemma {:induction false} ContainsOccurs(s: string, pat: string)
    ensures Contains(s, pat) <==> exists i: nat :: OccursAt(s, pat, i)
    decreases |s|
  {
    if |s| < |pat| {
    } else if s[..|pat|] == pat {
      assert OccursAt(s, pat, 0);
    } else {
      ShiftOccurrence(s, pat);
      ContainsOccurs(s[1..], pat);
    }
  }

  /** Without a match at index 0, `pat` occurs in `s` exactly when it occurs in `s[1..]`. */
  lemma ShiftOccurrence(s: string, pat: string)
    requires |s| >= 1 && !OccursAt(s, pat, 0)
    ensures (exists i: nat :: OccursAt(s, pat, i)) <==> (exists j: nat :: OccursAt(s[1..], pat, j))
  {
    if exists i: nat :: OccursAt(s, pat, i) {
      var i: nat :| OccursAt(s, pat, i);
      var j: nat := i - 1;
      assert s[1..][j..j + |pat|] == s[i..i + |pat|];
      assert OccursAt(s[1..], pat, j);
    }
    if exists j: nat :: OccursAt(s[1..], pat, j) {
      var j: nat :| OccursAt(s[1..], pat, j);
      assert s[1..][j..j + |pat|] == s[j + 1..j + 1 + |pat|];
      assert OccursAt(s, pat, j + 1);
    }
  }

  /** The parts joined with `sep`, first part first; no parts give the empty string. */
  function Join(parts: seq<string>, sep: char): (s: string)
    decreases |parts|
  {
    if |parts| == 0 then ""
    else if |parts| == 1 then parts[0]
    else Join(parts[..|parts| - 1], sep) + [sep] + parts[|parts| - 1]
  }

  /** The pieces of `s` between occurrences of `sep`, as a consumer of the report splits a folded stack. */
  function SplitOn(s: string, sep: char): (parts: seq<string>)
    ensures |parts| >= 1
    decreases |s|
  {
    if s == [] then [""]
    else
      var rest := SplitOn(s[1..], sep);
      if s[0] == sep then [""] + rest else [[s[0]] + rest[0]] + rest[1..]
  }

  /** A string without `sep` is a single piece. */
  lemma {:induction false} SplitOnWithout(s: string, sep: char)
    requires sep !in s
    ensures SplitOn(s, sep) == [s]
    decreases |s|
  {
    if s != [] {
      SplitOnWithout(s[1..], sep);
      assert [s[0]] + s[1..] == s;
    }
  }

  lemma {:induction false} SplitOnAppend(a: string, b: string, sep: char)
    requires sep !in b
    ensures SplitOn(a + [sep] + b, sep) == SplitOn(a, sep) + [b]
    decreases |a|
  {
    var s := a + [sep] + b;
    if a == [] {
      assert s == [sep] + b && s[1..] == b;
      SplitOnWithout(b, sep);
    } else {
      assert s[0] == a[0] && s[1..] == a[1..] + [sep] + b;
      SplitOnAppend(a[1..], b, sep);
    }
  }

  /** Joining parts free of `sep` and splitting again recovers the parts. */
  lemma {:induction false} SplitOnJoin(parts: seq<string>, sep: char)
    requires |parts| >= 1
    requires forall k | 0 <= k < |parts| :: sep !in parts[k]
    ensures SplitOn(Join(parts, sep), sep) == parts
    decreases |parts|
  {
    if |parts| == 1 {
      SplitOnWithout(parts[0], sep);
    } else {
      var init, last := parts[..|parts| - 1], parts[|parts| - 1];
      assert init + [last] == parts;
      SplitOnJoin(init, sep);
      SplitOnAppend(Join(init, sep), last, sep);
    }
  }
}
