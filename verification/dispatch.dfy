/** What `applyEffect` does for each effect identifier: which pixel filters
    it runs and with which fixed parameters, which steps it hands to the
    canvas, and which identifiers leave the generic render path (rotate,
    flip, crop). Identifiers it does not know get the simulated effect, a
    hue shift by an angle derived from the identifier's characters.
 */
module Dispatch {
  import opened Wrappers
  import opened PixelFilters

  /** Steps done by canvas drawing calls, whose pixels are not modelled. */
  datatype CanvasOp =
    | Vignette(percent: int)  // `applyVignette` with intensity percent / 100
    | RandomNoise             // the `Math.random` noise of the vintage look
    | Sharpen
    | NoiseReduction
    | SoftFocus
    | SimulatedLabel(id: string)  // the "(simulated)" text overlay

  datatype Step = PixelStep(filter: Filter) | CanvasStep(op: CanvasOp)

  /** The render path runs its steps on a copy of the current image and
      commits the result; the other three hand over to their own handlers. */
  datatype Plan = Render(steps: seq<Step>) | RotateImage | FlipImage | EnterCrop

  /** One UTF-16 code unit's value, or the sum of the two of a surrogate
      pair: `split("")` cuts a string into code units. */
  function CodeUnitSum(c: char): (n: int)
    ensures n >= 0
    ensures (c as int) < 0x10000 ==> n == c as int
  {
    var v := c as int;
    if v < 0x10000 then v
    else 0xD800 + (v - 0x10000) / 0x400 + 0xDC00 + (v - 0x10000) % 0x400
  }

  /** The running total of the `reduce` in `simulateEffect`, taken from the
      left. */
  function FoldCodes(acc: int, s: string): (n: int)
    decreases |s|
  {
    if s == [] then acc else FoldCodes(CodeUnitSum(s[0]) + acc, s[1..])
  }

  /** The plain sum of the code units, the reference for the fold. */
  function CodeSum(s: string): (n: nat)
    decreases |s|
  {
    if s == [] then 0 else CodeUnitSum(s[0]) + CodeSum(s[1..])
  }

  lemma {:induction false} FoldIsSum(acc: int, s: string)
    ensures FoldCodes(acc, s) == acc + CodeSum(s)
    decreases |s|
  {
    if s != [] {
      FoldIsSum(CodeUnitSum(s[0]) + acc, s[1..]);
    }
  }

  /** The hash only depends on which characters occur, not on their order:
      it is additive over concatenation. */
  lemma {:induction false} CodeSumConcat(a: string, b: string)
    ensures CodeSum(a + b) == CodeSum(a) + CodeSum(b)
    decreases |a|
  {
    if a == [] {
      assert a + b == b;
    } else {
      var ab := a + b;
      assert ab[0] == a[0];
      assert ab[1..] == a[1..] + b;
      CodeSumConcat(a[1..], b);
      assert CodeSum(ab) == CodeUnitSum(ab[0]) + CodeSum(ab[1..]);
    }
  }

  /** `hash % 360` of `simulateEffect`. */
  function SimulatedHue(id: string): (h: int)
    ensures 0 <= h < 360
    ensures h == CodeSum(id) % 360
  {
    FoldIsSum(0, id);
    FoldCodes(0, id) % 360
  }

  /** Swapping the two halves of an identifier keeps its simulated hue. */
  lemma {:induction false} SimulatedHueRotation(a: string, b: string)
    ensures SimulatedHue(a + b) == SimulatedHue(b + a)
  {
    CodeSumConcat(a, b);
    CodeSumConcat(b, a);
  }

  /** `simulateEffect`: the hue-shift loop with the hashed angle, then the
      text overlay. */
  function Simulated(id: string): (p: Plan)
    ensures p.Render? && |p.steps| == 2
    ensures p.steps[0] == PixelStep(HueShift(SimulatedHue(id)))
  {
    Render([PixelStep(HueShift(SimulatedHue(id))), CanvasStep(SimulatedLabel(id))])
  }

  /** The `switch` of `applyEffect`. Every rendered effect has one to three
      steps; only identifiers without a case of their own are simulated and
      labelled. */
  function Resolve(id: string): (p: Plan)
    ensures p.Render? ==> 1 <= |p.steps| <= 3
    ensures id !in KnownIds ==> p == Simulated(id)
    ensures p.Render? && id in KnownIds ==>
      forall k :: 0 <= k < |p.steps| ==> p.steps[k] != CanvasStep(SimulatedLabel(id))
  {
    if id == "black-white" || id == "grayscale" then Render([PixelStep(Grayscale)])
    else if id == "sepia" then Render([PixelStep(Sepia)])
    else if id == "vintage" || id == "vintage-film" then
      Render([PixelStep(Sepia), CanvasStep(Vignette(30)), CanvasStep(RandomNoise)])
    else if id == "hdr" then
      Render([PixelStep(Contrast(130)), PixelStep(Saturation(120)), CanvasStep(Vignette(20))])
    else if id == "cross-process" then Render([PixelStep(CrossProcess)])
    else if id == "brightness" then Render([PixelStep(Brightness(120))])
    else if id == "contrast" then Render([PixelStep(Contrast(120))])
    else if id == "saturation-boost" || id == "color-boost" then Render([PixelStep(Saturation(150))])
    else if id == "desaturation" then Render([PixelStep(Saturation(50))])
    else if id == "hue-shift" then Render([PixelStep(HueShift(180))])
    else if id == "sharpen" then Render([CanvasStep(Sharpen)])
    else if id == "noise-reduction" then Render([CanvasStep(NoiseReduction)])
    else if id == "clarity" then Render([CanvasStep(Sharpen), PixelStep(Contrast(110))])
    else if id == "vignette" then Render([CanvasStep(Vignette(50))])
    else if id == "soft-focus" then Render([CanvasStep(SoftFocus)])
    else if id == "rotate" then RotateImage
    else if id == "flip" then FlipImage
    else if id == "crop" then EnterCrop
    else Simulated(id)
  }

  /** The identifiers with a case of their own in the switch. */
  const KnownIds: set<string> := {
    "black-white", "grayscale", "sepia", "vintage", "vintage-film", "hdr",
    "cross-process", "brightness", "contrast", "saturation-boost",
    "color-boost", "desaturation", "hue-shift", "sharpen", "noise-reduction",
    "clarity", "vignette", "soft-focus", "rotate", "flip", "crop"
  }

  /** Only the three transform identifiers leave the render path. */
  lemma ResolveRendersUnlessTransform(id: string)
    ensures !Resolve(id).Render? <==> id == "rotate" || id == "flip" || id == "crop"
    ensures id == "rotate" <==> Resolve(id) == RotateImage
    ensures id == "flip" <==> Resolve(id) == FlipImage
    ensures id == "crop" <==> Resolve(id) == EnterCrop
  {
  }

  /** An identifier outside the switch gets the simulated effect. */
  lemma UnknownIsSimulated(id: string)
    requires id !in KnownIds
    ensures Resolve(id) == Simulated(id)
  {
  }

  /** The aliases resolve to the same plan as the identifier they stand
      for. */
  lemma Aliases()
    ensures Resolve("black-white") == Resolve("grayscale")
    ensures Resolve("vintage-film") == Resolve("vintage")
    ensures Resolve("color-boost") == Resolve("saturation-boost")
  {
  }

  /** The filters of a plan made of pixel steps only; None when a canvas
      step is involved. */
  function PixelFiltersOf(steps: seq<Step>): (fs: Option<seq<Filter>>)
    ensures fs.Some? <==> forall k :: 0 <= k < |steps| ==> steps[k].PixelStep?
    ensures fs.Some? ==> |fs.value| == |steps| && forall k :: 0 <= k < |steps| ==> fs.value[k] == steps[k].filter
    decreases |steps|
  {
    if steps == [] then Some([])
    else if !steps[0].PixelStep? then None
    else match PixelFiltersOf(steps[1..])
      case None => None
      case Some(rest) => Some([steps[0].filter] + rest)
  }

  /** A list of filters as a plan of pixel steps, in the same order. */
  function PixelSteps(fs: seq<Filter>): (steps: seq<Step>)
    ensures |steps| == |fs| && forall k :: 0 <= k < |fs| ==> steps[k] == PixelStep(fs[k])
  {
    seq(|fs|, k requires 0 <= k < |fs| => PixelStep(fs[k]))
  }

  /** Reading the filters back from a plan of pixel steps gives the list
      that made it. */
  lemma PixelStepsRoundTrip(fs: seq<Filter>)
    ensures PixelFiltersOf(PixelSteps(fs)) == Some(fs)
  {
    var r := PixelFiltersOf(PixelSteps(fs));
    assert r.value == fs;
  }

  /** A single pixel step is a pixel-only plan. */
  lemma OnePixelStep(f: Filter)
    ensures PixelFiltersOf([PixelStep(f)]) == Some([f])
  {
    assert [PixelStep(f)][1..] == [];
    assert PixelFiltersOf([]) == Some([]);
    assert [f] + [] == [f];
  }

  /** The effects computed entirely from pixel data, with their fixed
      parameters. */
  lemma {:induction false} PixelOnlyEffects(id: string)
    ensures id == "grayscale" || id == "black-white" ==> PixelFiltersOf(Resolve(id).steps) == Some([Grayscale])
    ensures id == "sepia" ==> PixelFiltersOf(Resolve(id).steps) == Some([Sepia])
    ensures id == "cross-process" ==> PixelFiltersOf(Resolve(id).steps) == Some([CrossProcess])
    ensures id == "brightness" ==> PixelFiltersOf(Resolve(id).steps) == Some([Brightness(120)])
    ensures id == "contrast" ==> PixelFiltersOf(Resolve(id).steps) == Some([Contrast(120)])
    ensures id == "saturation-boost" || id == "color-boost" ==> PixelFiltersOf(Resolve(id).steps) == Some([Saturation(150)])
    ensures id == "desaturation" ==> PixelFiltersOf(Resolve(id).steps) == Some([Saturation(50)])
    ensures id == "hue-shift" ==> PixelFiltersOf(Resolve(id).steps) == Some([HueShift(180)])
  {
    var p := Resolve(id);
    if p.Render? && |p.steps| == 1 && p.steps[0].PixelStep? {
      assert p.steps == [PixelStep(p.steps[0].filter)];
      OnePixelStep(p.steps[0].filter);
    }
  }

  /** "pop-art", offered among the quick effects, is simulated with a hue
      shift of 347 degrees: its code units add up to 707. */
  lemma PopArtIsSimulated(id: string)
    requires id == "pop-art"
    ensures Resolve(id) == Simulated(id)
    ensures SimulatedHue(id) == 347
  {
    assert id !in KnownIds;
    UnknownIsSimulated(id);
    assert CodeSum(id[6..]) == 116;
    assert CodeSum(id[5..]) == 230;
    assert CodeSum(id[4..]) == 327;
    assert CodeSum(id[3..]) == 372;
    assert CodeSum(id[2..]) == 484;
    assert CodeSum(id[1..]) == 595;
    assert CodeSum(id) == 707;
  }
}
