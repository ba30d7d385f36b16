/** The page that hosts the editor: the effect search of the effects panel,
    the upload handler with its MIME check, and the "New Image" reset.

    The upload and the reset both call the hook's `resetEffects` right
    after setting the page's images; that function still holds the
    original image of the render it was created in, so it works with the
    PREVIOUS original. The functions suffixed `AsWritten` model that; the
    unsuffixed ones hand it the value just set.
 */
module Page {
  import opened Wrappers
  import opened EditHistory
  import opened Dispatch
  import opened Processor

  // Effect search.

  datatype Effect = Effect(id: string, name: string)

  datatype Category = Category(id: string, name: string, effects: seq<Effect>)

  /** `toLowerCase` on the ASCII letters. */
  function LowerChar(c: char): (d: char)
    ensures 'A' <= c <= 'Z' ==> d as int == c as int + 32
    ensures !('A' <= c <= 'Z') ==> d == c
  {
    if 'A' <= c <= 'Z' then (c as int + 32) as char else c
  }

  function Lower(s: string): (t: string)
    ensures |t| == |s| && forall k :: 0 <= k < |s| ==> t[k] == LowerChar(s[k])
    decreases |s|
  {
    if s == [] then [] else [LowerChar(s[0])] + Lower(s[1..])
  }

  /** `q` occurs in `s` at position `i`. */
  ghost predicate OccursAt(s: string, q: string, i: int) {
    0 <= i && i + |q| <= |s| && s[i..i + |q|] == q
  }

  /** `s.includes(q)`, by scanning from the left. */
  function Includes(s: string, q: string): (b: bool)
    decreases |s|
  {
    if |q| <= |s| && s[..|q|] == q then true
    else if s == [] then false
    else Includes(s[1..], q)
  }

  /** The scan finds `q` exactly when it occurs somewhere. */
  lemma {:induction false} IncludesIff(s: string, q: string)
    ensures Includes(s, q) <==> exists i :: OccursAt(s, q, i)
    decreases |s|
  {
    if |q| <= |s| && s[..|q|] == q {
      assert OccursAt(s, q, 0);
    } else if s == [] {
    } else {
      IncludesIff(s[1..], q);
      if exists i :: OccursAt(s[1..], q, i) {
        var i :| OccursAt(s[1..], q, i);
        assert s[i + 1..i + 1 + |q|] == s[1..][i..i + |q|];
        assert OccursAt(s, q, i + 1);
      }
      if exists i :: OccursAt(s, q, i) {
        var i :| OccursAt(s, q, i);
        assert i != 0 by {
          if |q| <= |s| {
            assert s[0..|q|] == s[..|q|];
          }
        }
        assert s[1..][i - 1..i - 1 + |q|] == s[i..i + |q|];
        assert OccursAt(s[1..], q, i - 1);
      }
    }
  }

  /** The search predicate of the effects panel. */
  predicate Matches(e: Effect, query: string) {
    Includes(Lower(e.name), Lower(query))
  }

  /** `a` is `b` with some elements left out, order kept. */
  predicate Subseq<T(==)>(a: seq<T>, b: seq<T>)
    decreases |b|
  {
    a == [] || (b != [] && ((a[0] == b[0] && Subseq(a[1..], b[1..])) || Subseq(a, b[1..])))
  }

  /** The effects of one category that match the query, in order. */
  function KeepEffects(es: seq<Effect>, query: string): (r: seq<Effect>)
    ensures forall e :: e in r <==> e in es && Matches(e, query)
    ensures Subseq(r, es)
    decreases |es|
  {
    if es == [] then []
    else if Matches(es[0], query) then [es[0]] + KeepEffects(es[1..], query)
    else KeepEffects(es[1..], query)
  }

  /** The category with its effects narrowed to the matching ones. */
  function Narrow(c: Category, query: string): Category {
    c.(effects := KeepEffects(c.effects, query))
  }

  /** `filteredCategories`: the full list for an empty query; otherwise
      each category narrowed to its matching effects, and the categories
      left empty dropped. */
  function FilterCategories(cats: seq<Category>, query: string): (r: seq<Category>)
    ensures query == "" ==> r == cats
    ensures query != "" ==> forall k :: 0 <= k < |r| ==> r[k].effects != []
    ensures query != "" ==> forall c :: c in cats && Narrow(c, query).effects != [] ==> Narrow(c, query) in r
    ensures query != "" ==> forall d :: d in r ==> exists c :: c in cats && d == Narrow(c, query)
    ensures query != "" ==> Subseq(r, NarrowEach(cats, query))
    ensures |r| <= |cats|
  {
    if query == "" then cats else NarrowAll(cats, query)
  }

  /** Every category narrowed, none dropped. */
  function NarrowEach(cats: seq<Category>, query: string): (r: seq<Category>)
    ensures |r| == |cats| && forall k :: 0 <= k < |cats| ==> r[k] == Narrow(cats[k], query)
    decreases |cats|
  {
    if cats == [] then [] else [Narrow(cats[0], query)] + NarrowEach(cats[1..], query)
  }

  function NarrowAll(cats: seq<Category>, query: string): (r: seq<Category>)
    ensures Subseq(r, NarrowEach(cats, query))
    ensures forall k :: 0 <= k < |r| ==> r[k].effects != []
    ensures forall c :: c in cats && Narrow(c, query).effects != [] ==> Narrow(c, query) in r
    ensures forall d :: d in r ==> exists c :: c in cats && d == Narrow(c, query)
    ensures |r| <= |cats|
    decreases |cats|
  {
    if cats == [] then []
    else
      var rest := NarrowAll(cats[1..], query);
      var c := Narrow(cats[0], query);
      if c.effects != [] then [c] + rest else rest
  }

  /** An effect is listed under a non-empty query exactly when its name
      contains the query, ignoring ASCII case. */
  lemma {:induction false} SearchFindsExactlyMatches(cats: seq<Category>, query: string, e: Effect)
    requires query != ""
    ensures (exists d :: d in FilterCategories(cats, query) && e in d.effects) <==>
            (exists c :: c in cats && e in c.effects && Matches(e, query))
  {
    var r := FilterCategories(cats, query);
    if exists c :: c in cats && e in c.effects && Matches(e, query) {
      var c :| c in cats && e in c.effects && Matches(e, query);
      assert e in Narrow(c, query).effects;
      assert Narrow(c, query) in r;
    }
    if exists d :: d in r && e in d.effects {
      var d :| d in r && e in d.effects;
      var c :| c in cats && d == Narrow(c, query);
      assert e in c.effects && Matches(e, query);
    }
  }

  /** The search ignores ASCII case and finds the query anywhere in the
      name. */
  lemma SearchIgnoresCase()
    ensures Matches(Effect("sepia", "Sepia"), "SEP")
    ensures Matches(Effect("hdr", "HDR"), "d")
    ensures !Matches(Effect("sepia", "Sepia"), "blur")
  {
    assert Lower("Sepia")[..3] == "sep";
    assert Lower("HDR")[1..][..1] == "d";
    assert Lower("Sepia") == "sepia";
    assert Lower("blur") == "blur";
  }

  // Upload.

  /** A picked or dropped file: its MIME type and the data URL read from
      it. */
  datatype File<Img> = File(mime: string, data: Img)

  /** `file.type.match("image.*")`: the pattern is not anchored and `.*`
      may match nothing, so it matches exactly when the type contains
      "image". */
  predicate Accepts(mime: string)
    ensures Accepts(mime) <==> exists i :: OccursAt(mime, "image", i)
  {
    IncludesIff(mime, "image");
    Includes(mime, "image")
  }

  lemma AcceptsPng(mime: string)
    requires mime == "image/png"
    ensures Accepts(mime)
  {
    assert mime[..5] == "image";
  }

  /** An empty type, as a browser reports for an unknown file, is
      rejected. */
  lemma RejectsEmpty()
    ensures !Accepts("")
  {
  }

  /** The unanchored pattern also accepts a type that merely mentions
      "image" after its start. */
  lemma {:induction false} AcceptsUnanchored(mime: string)
    requires mime == "text/x-image-map"
    ensures Accepts(mime)
  {
    assert mime[7..7 + 5] == "image";
    assert OccursAt(mime, "image", 7);
    IncludesIff(mime, "image");
  }
  /** `handleFile` as written: an accepted file becomes both images, then
      the reset runs with the previous original. Anything else, including
      no file, changes nothing. */
  function LoadImageAsWritten<Img>(s: Editor<Img>, file: Option<File<Img>>): (s': Editor<Img>)
    ensures file.None? || !Accepts(file.value.mime) ==> s' == s
    ensures file.Some? && Accepts(file.value.mime) ==>
      s'.original == Some(file.value.data) && s'.image == (if s.original.Some? then s.original else Some(file.value.data))
    ensures file.Some? && Accepts(file.value.mime) && s.original.None? ==> s'.history == s.history
  {
    if file.Some? && Accepts(file.value.mime) then
      ResetEffects(s.(image := Some(file.value.data), original := Some(file.value.data)), s.original)
    else s
  }

  /** `handleFile` with the reset reading the image just loaded: history
      restarts from it. */
  function LoadImage<Img>(s: Editor<Img>, file: Option<File<Img>>): (s': Editor<Img>)
    ensures file.None? || !Accepts(file.value.mime) ==> s' == s
    ensures file.Some? && Accepts(file.value.mime) ==>
      s'.original == Some(file.value.data) && s'.image == Some(file.value.data) &&
      s'.history == Seed(file.value.data) && s'.adj == DefaultAdjustments && s'.rotation == 0 && !s'.flipped
  {
    if file.Some? && Accepts(file.value.mime) then
      ResetEffects(s.(image := Some(file.value.data), original := Some(file.value.data)), Some(file.value.data))
    else s
  }

  /** `resetImage` as written: both images are cleared, then the reset puts
      the previous original back on screen and in history. */
  function ResetImageAsWritten<Img>(s: Editor<Img>): (s': Editor<Img>)
    ensures s'.original.None?
    ensures s.original.Some? ==> s'.image == s.original && s'.history == Seed(s.original.value)
    ensures s.original.None? ==> s'.image.None?
  {
    ResetEffects(s.(image := None, original := None), s.original)
  }

  /** `resetImage` with the reset reading the cleared original: nothing is
      shown and the upload screen returns. */
  function ResetImage<Img>(s: Editor<Img>): (s': Editor<Img>)
    ensures s'.original.None? && s'.image.None?
    ensures s'.adj == DefaultAdjustments && s'.rotation == 0 && !s'.flipped
  {
    ResetEffects(s.(image := None, original := None), None)
  }

  /** The original image is history's first entry whenever there is one. */
  ghost predicate OriginalFirst<Img>(s: Editor<Img>) {
    s.original.Some? ==> s.history.entries != [] && s.history.entries[0] == s.original.value
  }

  /** As written, the first upload leaves history empty, so the loaded
      image is never in it. A later upload is only offered once "New Image"
      has emptied the screen, which takes two presses; the next file is then
      loaded over a history that still starts with the previous one. */
  lemma {:induction false} LoadAsWrittenIsStale<Img>(a: Img, b: Img)
    requires a != b
    ensures var s1 := LoadImageAsWritten(Start(), Some(File("image/png", a)));
      s1.history.entries == [] && s1.image == Some(a) && !OriginalFirst(s1)
    ensures var s1 := LoadImageAsWritten(Start(), Some(File("image/png", a)));
      var s2 := ResetImageAsWritten(s1);
      var s3 := ResetImageAsWritten(s2);
      var s4 := LoadImageAsWritten(s3, Some(File("image/png", b)));
      s2.image == Some(a) && s3.image.None? &&
      s4.image == Some(b) && s4.original == Some(b) && s4.history == Seed(a) && !OriginalFirst(s4)
  {
    AcceptsPng("image/png");
  }

  /** As written, "New Image" shows the previous original again instead of
      clearing the editor. */
  lemma {:induction false} ResetImageAsWrittenKeepsImage<Img>(s: Editor<Img>)
    requires s.original.Some?
    ensures ResetImageAsWritten(s).image.Some?
    ensures ResetImage(s).image.None?
  {
  }

  /** The corrected upload and reset, and every operation of the hook,
      keep the original at the bottom of history. */
  lemma LoadKeepsOriginalFirst<Img>(s: Editor<Img>, file: Option<File<Img>>)
    requires OriginalFirst(s)
    ensures OriginalFirst(LoadImage(s, file))
    ensures OriginalFirst(ResetImage(s))
  {
  }

  lemma {:induction false} EffectKeepsOriginalFirst<Img>(s: Editor<Img>, id: string, render: (Img, seq<Step>) -> Img, drawn: Img)
    requires WellFormed(s) && OriginalFirst(s)
    ensures OriginalFirst(ApplyEffect(s, id, render, drawn))
  {
    if s.original.Some? && s.image.Some? {
      ResolveRendersUnlessTransform(id);
      if Resolve(id).Render? {
        CommitKeepsFirst(s.history, render(s.image.value, Resolve(id).steps));
      } else {
        CommitKeepsFirst(s.history, drawn);
      }
    }
  }

  lemma {:induction false} EditsKeepOriginalFirst<Img>(s: Editor<Img>, render: (Img, seq<Step>) -> Img, drawn: Img)
    requires WellFormed(s) && OriginalFirst(s)
    ensures OriginalFirst(ApplyAdjustments(s, render))
    ensures OriginalFirst(Rotate(s, drawn)) && OriginalFirst(Flip(s, drawn)) && OriginalFirst(ApplyCrop(s, drawn))
  {
    if s.original.Some? {
      CommitKeepsFirst(s.history, drawn);
      if s.image.Some? {
        CommitKeepsFirst(s.history, render(s.image.value, AdjustmentSteps(s.adj)));
      }
    }
  }

  lemma UndoRedoKeepOriginalFirst<Img>(s: Editor<Img>)
    requires WellFormed(s) && OriginalFirst(s)
    ensures OriginalFirst(UndoEdit(s)) && OriginalFirst(RedoEdit(s))
    ensures OriginalFirst(ResetEffects(s, s.original))
  {
  }

  /** Load, sepia, brightness, undo, undo, redo. Corrected, history starts
      from the loaded image and the sequence ends on the sepia result; as
      written the first load leaves history empty, the second undo has
      nowhere to go, and it ends on the brightness result. */
  lemma {:induction false} UndoRedoScenario<Img>(o: Img, render: (Img, seq<Step>) -> Img, drawn: Img, sepia: string, bright: string)
    requires sepia == "sepia" && bright == "brightness"
    ensures var s1 := LoadImage(Start(), Some(File("image/png", o)));
      var s2 := ApplyEffect(s1, sepia, render, drawn);
      var s3 := ApplyEffect(s2, bright, render, drawn);
      var s6 := RedoEdit(UndoEdit(UndoEdit(s3)));
      s6.image == s2.image && s6.image == Some(render(o, Resolve(sepia).steps))
    ensures var s1 := LoadImageAsWritten(Start(), Some(File("image/png", o)));
      var s2 := ApplyEffect(s1, sepia, render, drawn);
      var s3 := ApplyEffect(s2, bright, render, drawn);
      var s6 := RedoEdit(UndoEdit(UndoEdit(s3)));
      s6.image == s3.image
  {
    AcceptsPng("image/png");
    ResolveRendersUnlessTransform(sepia);
    ResolveRendersUnlessTransform(bright);
  }
}
