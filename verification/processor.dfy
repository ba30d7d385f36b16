/** The state transitions of the image processor hook, together with the
    page state it reads and writes (the current and original image, the
    processing flag and the active effect).

    Images are opaque. What a canvas draws is supplied from outside: the
    render path's output as a function of the input image and the steps
    run, and the output of the rotate, flip and crop drawings as a value.
    Every operation is taken as one atomic step.
 */
module Processor {
  import opened Wrappers
  import opened EditHistory
  import opened Geometry
  import opened ImageEditor
  import opened PixelFilters
  import opened Dispatch

  /** The slider values. */
  datatype Adjustments = Adjustments(brightness: int, contrast: int, saturation: int, hue: int, blur: int)

  const DefaultAdjustments := Adjustments(100, 100, 100, 0, 0)

  const NoCrop: CropState := CropState(false, None, None, None)

  datatype Editor<Img> = Editor(
    image: Option<Img>,
    original: Option<Img>,
    history: History<Img>,
    adj: Adjustments,
    rotation: int,
    flipped: bool,
    crop: CropState,
    processing: bool,
    active: Option<string>)

  /** The state before any image is loaded. */
  function Start<Img>(): (s: Editor<Img>)
    ensures s.image.None? && s.history.entries == [] && s.history.cursor == -1
  {
    Editor(None, None, History([], -1), DefaultAdjustments, 0, false, NoCrop, false, None)
  }

  /** The image shown is the history's current entry whenever both exist. */
  ghost predicate Shown<Img>(s: Editor<Img>)
    requires EditHistory.Valid(s.history)
  {
    s.image.Some? && s.history.entries != [] ==> s.image == Current(s.history)
  }

  ghost predicate WellFormed<Img>(s: Editor<Img>) {
    EditHistory.Valid(s.history) && IsQuarterTurn(s.rotation) &&
    (!s.crop.mode ==> s.crop == NoCrop) && Shown(s)
  }

  /** `exitCropMode`: crop mode off and every crop field cleared. */
  function ExitCropMode<Img>(s: Editor<Img>): (s': Editor<Img>)
    ensures !s'.crop.mode && s'.crop.start.None? && s'.crop.end.None? && s'.crop.preview.None?
    ensures s'.history == s.history && s'.image == s.image && s'.adj == s.adj
    ensures s'.rotation == s.rotation && s'.flipped == s.flipped
    ensures s'.processing == s.processing && s'.active == s.active
  {
    s.(crop := NoCrop)
  }

  /** `enterCropMode`: crop mode on with no selection. */
  function EnterCropMode<Img>(s: Editor<Img>): (s': Editor<Img>)
    ensures s'.crop.mode && s'.crop.start.None? && s'.crop.end.None? && s'.crop.preview.None?
    ensures s'.history == s.history && s'.image == s.image
  {
    s.(crop := CropState(true, None, None, None))
  }

  /** `resetEffects`, reading `original` from the closure it was created in.
      With an original, history restarts from it and it is shown; in every
      case sliders, transform state, active effect and crop are reset. */
  function ResetEffects<Img>(s: Editor<Img>, original: Option<Img>): (s': Editor<Img>)
    ensures original.Some? ==> s'.image == original && s'.history == Seed(original.value)
    ensures original.None? ==> s'.image == s.image && s'.history == s.history
    ensures s'.adj == DefaultAdjustments && s'.rotation == 0 && !s'.flipped
    ensures s'.active.None? && s'.crop == NoCrop
    ensures s'.original == s.original && s'.processing == s.processing
  {
    var s1 := if original.Some? then s.(image := original, history := Seed(original.value)) else s;
    ExitCropMode(s1.(adj := DefaultAdjustments, active := None, rotation := 0, flipped := false))
  }

  /** `setImage` plus `addToHistory` with a freshly drawn image. */
  function CommitImage<Img>(s: Editor<Img>, out: Img): (s': Editor<Img>)
    requires EditHistory.Valid(s.history)
    ensures EditHistory.Valid(s'.history) && s'.image == Some(out) && Current(s'.history) == Some(out)
    ensures s'.history == Commit(s.history, out)
    ensures s'.crop == s.crop && s'.adj == s.adj && s'.rotation == s.rotation && s'.flipped == s.flipped
    ensures s'.processing == s.processing && s'.active == s.active && s'.original == s.original
  {
    s.(image := Some(out), history := Commit(s.history, out))
  }

  /** `rotateImage`: the counter always advances; the drawing, and so the
      commit, only happens when there is an image to load. */
  function Rotate<Img>(s: Editor<Img>, drawn: Img): (s': Editor<Img>)
    requires EditHistory.Valid(s.history)
    ensures s'.rotation == NextRotation(s.rotation) && s'.flipped == s.flipped
    ensures s.image.Some? ==> s'.history == Commit(s.history, drawn) && s'.image == Some(drawn)
    ensures s.image.None? ==> s'.history == s.history && s'.image == s.image
    ensures s'.processing == s.processing && s'.active == s.active && s'.crop == s.crop
  {
    var s1 := s.(rotation := NextRotation(s.rotation));
    if s.image.Some? then CommitImage(s1, drawn) else s1
  }

  /** `flipImage`: the flag always toggles; the drawing, and so the commit,
      only happens when there is an image to load. */
  function Flip<Img>(s: Editor<Img>, drawn: Img): (s': Editor<Img>)
    requires EditHistory.Valid(s.history)
    ensures s'.flipped == !s.flipped && s'.rotation == s.rotation
    ensures s.image.Some? ==> s'.history == Commit(s.history, drawn) && s'.image == Some(drawn)
    ensures s.image.None? ==> s'.history == s.history && s'.image == s.image
    ensures s'.processing == s.processing && s'.active == s.active && s'.crop == s.crop
  {
    var s1 := s.(flipped := !s.flipped);
    if s.image.Some? then CommitImage(s1, drawn) else s1
  }

  /** `applyCrop`: nothing without a selection or an image; otherwise the
      drawn crop is committed and crop mode is left. */
  function ApplyCrop<Img>(s: Editor<Img>, drawn: Img): (s': Editor<Img>)
    requires EditHistory.Valid(s.history)
    ensures s.crop.preview.None? || s.image.None? ==> s' == s
    ensures s.crop.preview.Some? && s.image.Some? ==>
      s'.history == Commit(s.history, drawn) && s'.image == Some(drawn) && s'.crop == NoCrop
  {
    if s.crop.preview.None? || s.image.None? then s
    else ExitCropMode(CommitImage(s, drawn))
  }

  /** The render path: run the plan's steps on the current image, commit,
      and clear the processing flag and the active effect. */
  function Finish<Img>(s: Editor<Img>, out: Img): (s': Editor<Img>)
    requires EditHistory.Valid(s.history)
    ensures s'.history == Commit(s.history, out) && s'.image == Some(out)
    ensures !s'.processing && s'.active.None?
  {
    CommitImage(s, out).(processing := false, active := None)
  }

  /** `applyEffect` as written: rotate and flip return before the flags are
      cleared, so processing stays on and the effect stays active. */
  function ApplyEffectAsWritten<Img>(s: Editor<Img>, id: string, render: (Img, seq<Step>) -> Img, drawn: Img): (s': Editor<Img>)
    requires EditHistory.Valid(s.history)
    ensures s.image.None? ==> s' == s
    ensures s.image.Some? && (id == "rotate" || id == "flip") ==> s'.processing && s'.active == Some(id)
  {
    if s.image.None? then s
    else
      var s1 := s.(processing := true, active := Some(id));
      match Resolve(id)
      case Render(steps) => Finish(s1, render(s.image.value, steps))
      case RotateImage => Rotate(s1, drawn)
      case FlipImage => Flip(s1, drawn)
      case EnterCrop => EnterCropMode(s1).(processing := false, active := None)
  }

  /** `applyEffect` with every path ending idle, as the flags promise. */
  function ApplyEffect<Img>(s: Editor<Img>, id: string, render: (Img, seq<Step>) -> Img, drawn: Img): (s': Editor<Img>)
    requires EditHistory.Valid(s.history)
    ensures s.image.None? ==> s' == s
    ensures s.image.Some? ==> !s'.processing && s'.active.None?
    ensures s.image.Some? && id == "crop" ==> s'.history == s.history && s'.crop.mode && s'.crop.preview.None?
    ensures s.image.Some? && id != "crop" ==> |s'.history.entries| == s.history.cursor + 2 && s'.history.cursor == s.history.cursor + 1
    ensures s.image.Some? && Resolve(id).Render? ==> s'.image == Some(render(s.image.value, Resolve(id).steps))
  {
    if s.image.None? then s
    else
      var s1 := s.(processing := true, active := Some(id));
      ResolveRendersUnlessTransform(id);
      match Resolve(id)
      case Render(steps) => Finish(s1, render(s.image.value, steps))
      case RotateImage => Rotate(s1, drawn).(processing := false, active := None)
      case FlipImage => Flip(s1, drawn).(processing := false, active := None)
      case EnterCrop => EnterCropMode(s1).(processing := false, active := None)
  }

  /** The steps of `applyAdjustments`: the four adjustment filters with
      the slider values, as pixel steps; blur is never read. */
  function AdjustmentSteps(a: Adjustments): (steps: seq<Step>)
    ensures PixelFiltersOf(steps) == Some(AdjustmentFilters(a.brightness, a.contrast, a.saturation, a.hue))
  {
    var fs := AdjustmentFilters(a.brightness, a.contrast, a.saturation, a.hue);
    PixelStepsRoundTrip(fs);
    PixelSteps(fs)
  }

  /** `applyAdjustments`: with an image, render the four adjustments in
      order and commit; the processing flag ends off. */
  function ApplyAdjustments<Img>(s: Editor<Img>, render: (Img, seq<Step>) -> Img): (s': Editor<Img>)
    requires EditHistory.Valid(s.history)
    ensures s.image.None? ==> s' == s
    ensures s.image.Some? ==>
      s'.history == Commit(s.history, render(s.image.value, AdjustmentSteps(s.adj))) &&
      s'.image == Current(s'.history) && !s'.processing
    ensures s'.adj == s.adj && s'.active == s.active
  {
    if s.image.None? then s
    else CommitImage(s, render(s.image.value, AdjustmentSteps(s.adj))).(processing := false)
  }

  /** The blur slider has no effect on what `applyAdjustments` commits. */
  lemma BlurIgnored<Img>(s: Editor<Img>, blur: int, render: (Img, seq<Step>) -> Img)
    requires EditHistory.Valid(s.history)
    ensures ApplyAdjustments(s.(adj := s.adj.(blur := blur)), render).history == ApplyAdjustments(s, render).history
  {
  }

  /** `undo`: with an entry behind the index, step back and show it;
      otherwise nothing changes. */
  function UndoEdit<Img>(s: Editor<Img>): (s': Editor<Img>)
    requires EditHistory.Valid(s.history)
    ensures CanUndo(s.history) ==> s'.history.cursor == s.history.cursor - 1 && s'.image == Some(s.history.entries[s.history.cursor - 1])
    ensures !CanUndo(s.history) ==> s' == s
    ensures s'.history.entries == s.history.entries
  {
    var (h, shown) := EditHistory.Undo(s.history);
    if shown.Some? then s.(history := h, image := shown) else s
  }

  /** `redo`: with an entry ahead of the index, step forward and show it;
      otherwise nothing changes. */
  function RedoEdit<Img>(s: Editor<Img>): (s': Editor<Img>)
    requires EditHistory.Valid(s.history)
    ensures CanRedo(s.history) ==> s'.history.cursor == s.history.cursor + 1 && s'.image == Some(s.history.entries[s.history.cursor + 1])
    ensures !CanRedo(s.history) ==> s' == s
    ensures s'.history.entries == s.history.entries
  {
    var (h, shown) := EditHistory.Redo(s.history);
    if shown.Some? then s.(history := h, image := shown) else s
  }

  /** Redo after undo restores the state. */
  lemma UndoRedoEdit<Img>(s: Editor<Img>)
    requires WellFormed(s) && CanUndo(s.history) && s.image.Some?
    ensures RedoEdit(UndoEdit(s)) == s
  {
    EditHistory.UndoThenRedo(s.history);
  }

  /** Every operation of the hook keeps the state well formed. */
  lemma ResetKeepsWellFormed<Img>(s: Editor<Img>, original: Option<Img>)
    requires WellFormed(s)
    ensures WellFormed(ResetEffects(s, original))
  {
  }

  lemma TransformsKeepWellFormed<Img>(s: Editor<Img>, drawn: Img)
    requires WellFormed(s)
    ensures WellFormed(Rotate(s, drawn)) && WellFormed(Flip(s, drawn))
    ensures WellFormed(ApplyCrop(s, drawn))
  {
  }

  lemma {:induction false} ApplyEffectKeepsWellFormed<Img>(s: Editor<Img>, id: string, render: (Img, seq<Step>) -> Img, drawn: Img)
    requires WellFormed(s)
    ensures WellFormed(ApplyEffect(s, id, render, drawn))
    ensures WellFormed(ApplyEffectAsWritten(s, id, render, drawn))
  {
    ResolveRendersUnlessTransform(id);
  }

  lemma AdjustKeepsWellFormed<Img>(s: Editor<Img>, render: (Img, seq<Step>) -> Img)
    requires WellFormed(s)
    ensures WellFormed(ApplyAdjustments(s, render))
    ensures WellFormed(ExitCropMode(s)) && WellFormed(EnterCropMode(s))
  {
  }

  lemma UndoRedoKeepWellFormed<Img>(s: Editor<Img>)
    requires WellFormed(s)
    ensures WellFormed(UndoEdit(s)) && WellFormed(RedoEdit(s))
  {
  }

  /** The crop mouse handlers keep the state valid. */
  lemma MouseKeepsValid<Img>(s: Editor<Img>, b: Box, cx: real, cy: real)
    requires WellFormed(s) && NonEmptyBox(b)
    ensures WellFormed(s.(crop := MouseDown(s.crop, b, cx, cy)))
    ensures WellFormed(s.(crop := MouseMove(s.crop, b, cx, cy)))
    ensures WellFormed(s.(crop := MouseUp(s.crop)))
  {
  }

  /** As written, rotating through `applyEffect` leaves the editor busy,
      where the corrected dispatcher ends idle. */
  lemma RotateLeavesBusy<Img>(s: Editor<Img>, render: (Img, seq<Step>) -> Img, drawn: Img)
    requires EditHistory.Valid(s.history) && s.image.Some?
    ensures ApplyEffectAsWritten(s, "rotate", render, drawn).processing
    ensures ApplyEffectAsWritten(s, "rotate", render, drawn).active == Some("rotate")
    ensures !ApplyEffect(s, "rotate", render, drawn).processing
    ensures ApplyEffectAsWritten(s, "rotate", render, drawn).history == ApplyEffect(s, "rotate", render, drawn).history
  {
  }

  /** Apart from the two transform identifiers, the corrected dispatcher
      is the one written. */
  lemma ApplyEffectAgrees<Img>(s: Editor<Img>, id: string, render: (Img, seq<Step>) -> Img, drawn: Img)
    requires EditHistory.Valid(s.history)
    requires id != "rotate" && id != "flip"
    ensures ApplyEffect(s, id, render, drawn) == ApplyEffectAsWritten(s, id, render, drawn)
  {
    ResolveRendersUnlessTransform(id);
  }
}
