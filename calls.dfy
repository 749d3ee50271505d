/**
 * Frames and the call stack's tables, as values.
 *
 * A `Call` is an interned frame: the text it is shown as in the report. The
 * `CallStackState` is the whole content of the collapser's `CallStack`: the two
 * lookup maps that hand out ids, the append-only table those ids index, and the
 * stack of ids of the calls currently open. The functions here say what each
 * operation does to that content; the class in `CallStacks` is proved to do
 * exactly this in place.
 */
module Calls {
  import opened Text

  /** An interned frame, holding its display form. */
  datatype Call = Call(display: string)

  /** The frame of an inclusion call, shown as `name(path)`. */
  function WithPath(name: string, path: string): Call {
    Call(name + "(" + path + ")")
  }

  /** The frame of any other call, shown as its bare name. */
  function WithoutPath(name: string): Call {
    Call(name)
  }

  function DisplayName(c: Call): string {
    c.display
  }

  /** Distinct (name, path) pairs display differently, as long as no name contains `(`. */
  lemma WithPathInjective(n1: string, p1: string, n2: string, p2: string)
    requires '(' !in n1 && '(' !in n2
    requires DisplayName(WithPath(n1, p1)) == DisplayName(WithPath(n2, p2))
    ensures n1 == n2 && p1 == p2
  {
    var d := DisplayName(WithPath(n1, p1));
    assert d == n1 + "(" + p1 + ")" == n2 + "(" + p2 + ")";
    if |n1| < |n2| {
      ParenthesisAfterName(n1, p1);
      assert false;
    } else if |n2| < |n1| {
      ParenthesisAfterName(n2, p2);
      assert false;
    }
    assert n1 == d[..|n1|] == n2;
    assert p1 == d[|n1| + 1..|d| - 1] == p2;
  }

  lemma ParenthesisAfterName(n: string, p: string)
    ensures |DisplayName(WithPath(n, p))| == |n| + |p| + 2
    ensures DisplayName(WithPath(n, p))[|n|] == '('
  {
  }

  /** A bare name without `(` never displays like an inclusion call. */
  lemma WithoutPathNeverParenthesised(m: string, n: string, p: string)
    requires '(' !in m
    ensures DisplayName(WithoutPath(m)) != DisplayName(WithPath(n, p))
  {
  }

  /** The content of a `CallStack`. */
  datatype CallStackState = CallStackState(
    withPath: map<(string, string), nat>,
    withoutPath: map<string, nat>,
    interned: seq<Call>,
    stack: seq<nat>)

  /** A fresh call stack, as `CallStack::default()` builds it. */
  const EmptyCallStack := CallStackState(map[], map[], [], [])

  /** Every id in `ids` indexes `interned`. */
  predicate ValidIds(interned: seq<Call>, ids: seq<nat>) {
    forall i | 0 <= i < |ids| :: ids[i] < |interned|
  }

  /** Every id a map hands out indexes `interned`, and the call stored there displays the key. */
  ghost predicate Resolves(s: CallStackState) {
    && (forall key | key in s.withPath ::
          s.withPath[key] < |s.interned| && s.interned[s.withPath[key]] == WithPath(key.0, key.1))
    && (forall name | name in s.withoutPath ::
          s.withoutPath[name] < |s.interned| && s.interned[s.withoutPath[name]] == WithoutPath(name))
  }

  /** No id is handed out for two different keys. */
  ghost predicate Distinct(withPath: map<(string, string), nat>, withoutPath: map<string, nat>) {
    && (forall k1, k2 | k1 in withPath && k2 in withPath && withPath[k1] == withPath[k2] :: k1 == k2)
    && (forall n1, n2 | n1 in withoutPath && n2 in withoutPath && withoutPath[n1] == withoutPath[n2] :: n1 == n2)
    && (forall key, name | key in withPath && name in withoutPath :: withPath[key] != withoutPath[name])
  }

  /** Every id either map hands out is below `bound`. */
  ghost predicate IdsBelow(withPath: map<(string, string), nat>, withoutPath: map<string, nat>, bound: nat) {
    && (forall key | key in withPath :: withPath[key] < bound)
    && (forall name | name in withoutPath :: withoutPath[name] < bound)
  }

  /**
   * The tables agree: every id a map hands out indexes `interned`, the call
   * stored there displays the key it was handed out for, no id is handed out
   * twice, and every id on the stack is valid.
   */
  ghost predicate Valid(s: CallStackState) {
    Resolves(s) && Distinct(s.withPath, s.withoutPath) && ValidIds(s.interned, s.stack)
  }

  lemma EmptyCallStackValid()
    ensures Valid(EmptyCallStack)
  {
  }

  /** Enter an inclusion call: intern `(name, path)` if it is new, then push its id. */
  function EnterWithPath(s: CallStackState, name: string, path: string): (r: CallStackState)
    ensures (name, path) in r.withPath && r.stack == s.stack + [r.withPath[(name, path)]]
    ensures (name, path) in s.withPath ==> r.withPath == s.withPath && r.interned == s.interned
    ensures (name, path) !in s.withPath ==>
              r.withPath == s.withPath[(name, path) := |s.interned|]
              && r.interned == s.interned + [WithPath(name, path)]
    ensures r.withoutPath == s.withoutPath
  {
    var key := (name, path);
    if key in s.withPath then
      s.(stack := s.stack + [s.withPath[key]])
    else
      var index := |s.interned|;
      s.(withPath := s.withPath[key := index],
         interned := s.interned + [WithPath(name, path)],
         stack := s.stack + [index])
  }

  /** Enter any other call: intern `name` if it is new, then push its id. */
  function EnterWithoutPath(s: CallStackState, name: string): (r: CallStackState)
    ensures name in r.withoutPath && r.stack == s.stack + [r.withoutPath[name]]
    ensures name in s.withoutPath ==> r.withoutPath == s.withoutPath && r.interned == s.interned
    ensures name !in s.withoutPath ==>
              r.withoutPath == s.withoutPath[name := |s.interned|]
              && r.interned == s.interned + [WithoutPath(name)]
    ensures r.withPath == s.withPath
  {
    if name in s.withoutPath then
      s.(stack := s.stack + [s.withoutPath[name]])
    else
      var index := |s.interned|;
      s.(withoutPath := s.withoutPath[name := index],
         interned := s.interned + [WithoutPath(name)],
         stack := s.stack + [index])
  }

  /** Handing a new (name, path) key an id above all others keeps every id distinct. */
  lemma FreshPathIdDistinct(
    withPath: map<(string, string), nat>, withoutPath: map<string, nat>, key: (string, string), id: nat)
    requires Distinct(withPath, withoutPath) && IdsBelow(withPath, withoutPath, id)
    requires key !in withPath
    ensures Distinct(withPath[key := id], withoutPath)
  {
  }

  /** Handing a new name an id above all others keeps every id distinct. */
  lemma FreshNameIdDistinct(
    withPath: map<(string, string), nat>, withoutPath: map<string, nat>, name: string, id: nat)
    requires Distinct(withPath, withoutPath) && IdsBelow(withPath, withoutPath, id)
    requires name !in withoutPath
    ensures Distinct(withPath, withoutPath[name := id])
  {
  }

  /** Interning a new identity keeps every stored call displaying its key. */
  lemma {:induction false} FreshIdResolves(s: CallStackState, r: CallStackState)
    requires Resolves(s)
    requires |r.interned| == |s.interned| + 1 && r.interned[..|s.interned|] == s.interned
    requires forall k | k in r.withPath && k !in s.withPath ::
               r.withPath[k] < |r.interned| && r.interned[r.withPath[k]] == WithPath(k.0, k.1)
    requires forall n | n in r.withoutPath && n !in s.withoutPath ::
               r.withoutPath[n] < |r.interned| && r.interned[r.withoutPath[n]] == WithoutPath(n)
    requires forall k | k in s.withPath :: k in r.withPath && r.withPath[k] == s.withPath[k]
    requires forall n | n in s.withoutPath :: n in r.withoutPath && r.withoutPath[n] == s.withoutPath[n]
    ensures Resolves(r)
  {
    forall k | k in r.withPath && k in s.withPath
      ensures r.interned[r.withPath[k]] == WithPath(k.0, k.1)
    {
      assert r.interned[s.withPath[k]] == r.interned[..|s.interned|][s.withPath[k]];
    }
    forall n | n in r.withoutPath && n in s.withoutPath
      ensures r.interned[r.withoutPath[n]] == WithoutPath(n)
    {
      assert r.interned[s.withoutPath[n]] == r.interned[..|s.interned|][s.withoutPath[n]];
    }
  }

  /**
   * Entering an inclusion call keeps the tables consistent, and the id it
   * pushes names the frame `name(path)`.
   */
  lemma EnterWithPathValid(s: CallStackState, name: string, path: string)
    requires Valid(s)
    ensures var r := EnterWithPath(s, name, path);
            Valid(r) && r.stack[|r.stack| - 1] < |r.interned|
            && r.interned[r.stack[|r.stack| - 1]] == WithPath(name, path)
  {
    var r := EnterWithPath(s, name, path);
    var key := (name, path);
    if key !in s.withPath {
      assert r.interned[..|s.interned|] == s.interned;
      FreshIdResolves(s, r);
      FreshPathIdDistinct(s.withPath, s.withoutPath, key, |s.interned|);
    }
  }

  /**
   * Entering any other call keeps the tables consistent, and the id it pushes
   * names the bare frame `name`.
   */
  lemma EnterWithoutPathValid(s: CallStackState, name: string)
    requires Valid(s)
    ensures var r := EnterWithoutPath(s, name);
            Valid(r) && r.stack[|r.stack| - 1] < |r.interned|
            && r.interned[r.stack[|r.stack| - 1]] == WithoutPath(name)
  {
    var r := EnterWithoutPath(s, name);
    if name !in s.withoutPath {
      assert r.interned[..|s.interned|] == s.interned;
      FreshIdResolves(s, r);
      FreshNameIdDistinct(s.withPath, s.withoutPath, name, |s.interned|);
    }
  }

  /** Leave the innermost call; on an empty stack nothing happens. */
  function Popped(s: CallStackState): (r: CallStackState)
    ensures s.stack == [] ==> r == s
    ensures s.stack != [] ==> r.stack + [s.stack[|s.stack| - 1]] == s.stack
    ensures r.withPath == s.withPath && r.withoutPath == s.withoutPath && r.interned == s.interned
    ensures Valid(s) ==> Valid(r)
  {
    if s.stack == [] then s else s.(stack := s.stack[..|s.stack| - 1])
  }

  /** Entering a call twice hands out the same id twice and interns nothing the second time. */
  lemma EnterWithPathIdempotent(s: CallStackState, name: string, path: string)
    ensures var once := EnterWithPath(s, name, path);
            var twice := EnterWithPath(once, name, path);
            && twice.withPath == once.withPath
            && twice.withoutPath == once.withoutPath
            && twice.interned == once.interned
            && twice.stack == once.stack + [once.stack[|once.stack| - 1]]
  {
  }

  lemma EnterWithoutPathIdempotent(s: CallStackState, name: string)
    ensures var once := EnterWithoutPath(s, name);
            var twice := EnterWithoutPath(once, name);
            && twice.withPath == once.withPath
            && twice.withoutPath == once.withoutPath
            && twice.interned == once.interned
            && twice.stack == once.stack + [once.stack[|once.stack| - 1]]
  {
  }

  /** Popping after entering restores the stack, whatever was interned on the way. */
  lemma PoppedAfterEnter(s: CallStackState, name: string, path: string)
    ensures Popped(EnterWithPath(s, name, path)).stack == s.stack
    ensures Popped(EnterWithoutPath(s, name)).stack == s.stack
  {
    var r1 := EnterWithPath(s, name, path);
    assert r1.stack[..|r1.stack| - 1] == s.stack;
    var r2 := EnterWithoutPath(s, name);
    assert r2.stack[..|r2.stack| - 1] == s.stack;
  }

  /** The display names of the calls `ids` refers to, in order. */
  function DisplayNames(interned: seq<Call>, ids: seq<nat>): (names: seq<string>)
    requires ValidIds(interned, ids)
    ensures |names| == |ids|
  {
    seq(|ids|, i requires 0 <= i < |ids| => DisplayName(interned[ids[i]]))
  }

  /** The folded-stack text of `ids`: display names joined by `;`, root first. */
  function FoldedName(interned: seq<Call>, ids: seq<nat>): string
    requires ValidIds(interned, ids)
  {
    Join(DisplayNames(interned, ids), ';')
  }

  /** Appending one id to the stack appends `;` and that call's name to its folded text. */
  lemma FoldedNameSnoc(interned: seq<Call>, ids: seq<nat>, id: nat)
    requires ValidIds(interned, ids) && id < |interned|
    ensures ValidIds(interned, ids + [id])
    ensures FoldedName(interned, ids + [id]) ==
              if ids == [] then DisplayName(interned[id])
              else FoldedName(interned, ids) + ";" + DisplayName(interned[id])
  {
    var names := DisplayNames(interned, ids + [id]);
    assert names[..|ids|] == DisplayNames(interned, ids);
  }

  /** The folded text of the first `i + 1` ids extends that of the first `i` by `;` and one name. */
  lemma FoldedNameExtend(interned: seq<Call>, ids: seq<nat>, i: nat)
    requires ValidIds(interned, ids) && 0 < i < |ids|
    ensures ValidIds(interned, ids[..i]) && ValidIds(interned, ids[..i + 1])
    ensures FoldedName(interned, ids[..i + 1]) == FoldedName(interned, ids[..i]) + ";" + DisplayName(interned[ids[i]])
  {
    assert ids[..i] + [ids[i]] == ids[..i + 1];
    FoldedNameSnoc(interned, ids[..i], ids[i]);
  }

  /**
   * The folded text of a non-empty stack splits at `;` back into its frames'
   * display names, root first, when no display name contains `;`; an empty
   * stack folds to the empty string.
   */
  lemma {:induction false} FoldedNameSplits(interned: seq<Call>, ids: seq<nat>)
    requires ValidIds(interned, ids)
    requires forall i | 0 <= i < |ids| :: ';' !in DisplayName(interned[ids[i]])
    ensures ids == [] ==> FoldedName(interned, ids) == ""
    ensures ids != [] ==> SplitOn(FoldedName(interned, ids), ';') == DisplayNames(interned, ids)
  {
    if ids != [] {
      SplitOnJoin(DisplayNames(interned, ids), ';');
    }
  }
}
