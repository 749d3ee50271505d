/**
 * The collapser's `CallStack`: an interner plus the stack of open calls,
 * updated in place. Each method is proved to change the object's content
 * exactly as the matching function of `Calls` says.
 */
module CallStacks {
  import opened Calls

  class CallStack {
    /** Ids of inclusion calls, keyed by (name, path). */
    var withPath: map<(string, string), nat>
    /** Ids of all other calls, keyed by name. */
    var withoutPath: map<string, nat>
    /** The interned frames; an id is an index into this table, which only grows. */
    var interned: seq<Call>
    /** Ids of the calls currently open, outermost first. */
    var stack: seq<nat>

    /** The object's content as a value. */
    function Value(): CallStackState
      reads this
    {
      CallStackState(withPath, withoutPath, interned, stack)
    }

    ghost predicate Valid()
      reads this
    {
      Calls.Valid(Value())
    }

    /** `CallStack::default()`: all tables and the stack empty. */
    constructor ()
      ensures Value() == EmptyCallStack && Valid()
    {
      withPath := map[];
      withoutPath := map[];
      interned := [];
      stack := [];
      new;
      EmptyCallStackValid();
    }

    /** Push the id of `name(path)`, interning the pair first if it is new. */
    method CallWithPath(name: string, path: string)
      modifies this
      ensures Value() == EnterWithPath(old(Value()), name, path)
      ensures old(Valid()) ==> Valid()
    {
      ghost var before := Value();
      if Calls.Valid(before) {
        EnterWithPathValid(before, name, path);
      }
      var key := (name, path);
      if key !in withPath {
        var index := |interned|;
        interned := interned + [Calls.WithPath(name, path)];
        withPath := withPath[key := index];
      }
      stack := stack + [withPath[key]];
    }

    /** Push the id of the bare `name`, interning it first if it is new. */
    method CallWithoutPath(name: string)
      modifies this
      ensures Value() == EnterWithoutPath(old(Value()), name)
      ensures old(Valid()) ==> Valid()
    {
      ghost var before := Value();
      if Calls.Valid(before) {
        EnterWithoutPathValid(before, name);
      }
      if name in withoutPath {
        stack := stack + [withoutPath[name]];
        return;
      }
      var index := |interned|;
      interned := interned + [Calls.WithoutPath(name)];
      withoutPath := withoutPath[name := index];
      stack := stack + [index];
    }

    /** Drop the innermost open call, if there is one. */
    method Pop()
      modifies this
      ensures Value() == Popped(old(Value()))
      ensures old(Valid()) ==> Valid()
    {
      if stack != [] {
        stack := stack[..|stack| - 1];
      }
    }

    /** No call is open: exactly the state in which `Pop` changes nothing. */
    function IsEmpty(): (b: bool)
      reads this
      ensures b <==> Popped(Value()) == Value()
    {
      stack == []
    }

    /** The open calls, outermost first: the key the next record's time is charged to. */
    function Current(): (ids: seq<nat>)
      reads this
      ensures Valid() ==> ValidIds(interned, ids)
    {
      stack
    }

    /**
     * Append to `buffer` the folded text of `indices`: the display names of
     * those calls joined by `;`, outermost first.
     */
    method WriteName(indices: seq<nat>, buffer: string) returns (out: string)
      requires ValidIds(interned, indices)
      ensures out == buffer + FoldedName(interned, indices)
    {
      out := buffer;
      if |indices| > 0 {
        out := out + DisplayName(interned[indices[0]]);
        FoldedNameSnoc(interned, [], indices[0]);
        assert [indices[0]] == indices[..1];
        var i := 1;
        while i < |indices|
          invariant 1 <= i <= |indices|
          invariant out == buffer + FoldedName(interned, indices[..i])
        {
          FoldedNameExtend(interned, indices, i);
          out := out + ";" + DisplayName(interned[indices[i]]);
          i := i + 1;
        }
        assert indices[..i] == indices;
      } else {
        assert out == buffer + "";
      }
    }
  }
}
