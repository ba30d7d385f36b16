/** The edit history of the image processor hook: the list of committed
    images and the index of the one on screen. It starts empty at index -1;
    a commit drops everything after the index and appends; undo and redo
    move the index by one when there is somewhere to go.
 */
module EditHistory {
  import opened Wrappers

  datatype History<T> = History(entries: seq<T>, cursor: int)

  /** The index points at an entry, or is -1 exactly when nothing has been
      committed. */
  predicate Valid<T>(h: History<T>) {
    -1 <= h.cursor < |h.entries| && (h.cursor == -1 <==> h.entries == [])
  }

  /** The state before the first commit. */
  function Initial<T>(): (h: History<T>)
    ensures Valid(h) && h.entries == []
  {
    History([], -1)
  }

  /** The entry the index points at, if any. */
  function Current<T>(h: History<T>): (c: Option<T>)
    requires Valid(h)
    ensures c.None? <==> h.entries == []
  {
    if h.cursor == -1 then None else Some(h.entries[h.cursor])
  }

  /** Undo is possible (and its button enabled) only past the first entry. */
  predicate CanUndo<T>(h: History<T>) {
    h.cursor > 0
  }

  /** Redo is possible only before the last entry. */
  predicate CanRedo<T>(h: History<T>) {
    h.cursor < |h.entries| - 1
  }

  /** `addToHistory`: keep the entries up to the index, append the new one,
      and move the index onto it. */
  function Commit<T>(h: History<T>, x: T): (h': History<T>)
    requires Valid(h)
    ensures Valid(h')
    ensures h'.cursor == h.cursor + 1 && !CanRedo(h')
    ensures h'.entries[..h.cursor + 1] == h.entries[..h.cursor + 1]
    ensures Current(h') == Some(x)
  {
    History(h.entries[..h.cursor + 1] + [x], h.cursor + 1)
  }

  /** The history `resetEffects` seeds when an original image exists. */
  function Seed<T>(x: T): (h: History<T>)
    ensures Valid(h) && Current(h) == Some(x) && !CanUndo(h) && !CanRedo(h)
  {
    History([x], 0)
  }

  /** `undo`: step back and show the entry there, or change nothing. */
  function Undo<T>(h: History<T>): (res: (History<T>, Option<T>))
    requires Valid(h)
    ensures Valid(res.0) && res.0.entries == h.entries
    ensures CanUndo(h) ==> res.0.cursor == h.cursor - 1 && res.1 == Some(h.entries[h.cursor - 1]) && res.1 == Current(res.0)
    ensures !CanUndo(h) ==> res.0 == h && res.1 == None
  {
    if h.cursor > 0 then (History(h.entries, h.cursor - 1), Some(h.entries[h.cursor - 1]))
    else (h, None)
  }

  /** `redo`: step forward and show the entry there, or change nothing. */
  function Redo<T>(h: History<T>): (res: (History<T>, Option<T>))
    requires Valid(h)
    ensures Valid(res.0) && res.0.entries == h.entries
    ensures CanRedo(h) ==> res.0.cursor == h.cursor + 1 && res.1 == Some(h.entries[h.cursor + 1]) && res.1 == Current(res.0)
    ensures !CanRedo(h) ==> res.0 == h && res.1 == None
  {
    if h.cursor < |h.entries| - 1 then (History(h.entries, h.cursor + 1), Some(h.entries[h.cursor + 1]))
    else (h, None)
  }

  /** Redo after undo brings back the history and the image shown before. */
  lemma UndoThenRedo<T>(h: History<T>)
    requires Valid(h) && CanUndo(h)
    ensures Redo(Undo(h).0) == (h, Current(h))
  {
  }

  /** Undo after redo brings back the history and the image shown before. */
  lemma RedoThenUndo<T>(h: History<T>)
    requires Valid(h) && CanRedo(h)
    ensures Undo(Redo(h).0) == (h, Current(h))
  {
  }

  /** A commit after undoing discards every entry that redo could have
      reached: redo then does nothing. */
  lemma CommitDiscardsRedo<T>(h: History<T>, x: T)
    requires Valid(h)
    ensures Redo(Commit(h, x)) == (Commit(h, x), None)
    ensures |Commit(h, x).entries| == h.cursor + 2
  {
  }

  /** A commit never touches history's first entry. */
  lemma {:induction false} CommitKeepsFirst<T>(h: History<T>, x: T)
    requires Valid(h) && h.entries != []
    ensures Commit(h, x).entries[0] == h.entries[0]
  {
    var h' := Commit(h, x);
    assert h.cursor >= 0;
    assert h'.entries[0] == h'.entries[..h.cursor + 1][0];
  }

  /** The first commit from the initial state gives one entry at index 0,
      which undo cannot leave. */
  lemma FirstCommit<T>(x: T)
    ensures Commit(Initial(), x) == History([x], 0)
    ensures !CanUndo(Commit(Initial(), x))
  {
  }

  /** Entries up to the index survive any number of commits, and a
      non-empty run of commits leaves exactly those entries followed by the
      committed ones, with the index on the last. */
  lemma {:induction false} CommitsKeepPrefix<T>(h: History<T>, xs: seq<T>)
    requires Valid(h)
    ensures Valid(CommitAll(h, xs))
    ensures xs != [] ==> CommitAll(h, xs).entries == h.entries[..h.cursor + 1] + xs
    ensures CommitAll(h, xs).cursor == h.cursor + |xs|
    decreases |xs|
  {
    if xs != [] {
      var h1 := Commit(h, xs[0]);
      CommitsKeepPrefix(h1, xs[1..]);
      assert CommitAll(h, xs) == CommitAll(h1, xs[1..]);
      assert h1.entries[..h1.cursor + 1] == h1.entries == h.entries[..h.cursor + 1] + [xs[0]];
      if xs[1..] == [] {
        assert xs == [xs[0]];
      } else {
        assert xs == [xs[0]] + xs[1..];
        assert h.entries[..h.cursor + 1] + [xs[0]] + xs[1..] == h.entries[..h.cursor + 1] + xs;
      }
    }
  }

  /** Several commits in a row. */
  function CommitAll<T>(h: History<T>, xs: seq<T>): (h': History<T>)
    requires Valid(h)
    ensures Valid(h')
    decreases |xs|
  {
    if xs == [] then h else CommitAll(Commit(h, xs[0]), xs[1..])
  }
}
