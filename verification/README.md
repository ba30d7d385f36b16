# Photool core in Dafny

A model of the editing core of Photool, an in-browser photo editor.

- **Image processor hook.** The pixel filters run over RGBA pixel data. The RGB/HSL conversions serve the hue shift. There is the effect dispatcher, with its fallback "simulated" effect. There are rotate, flip and crop. There is the undo/redo history. There are the state transitions that tie these together.
- **Image editor component.** The crop selection drawn with the mouse, the before/after split slider, and the enabled state of the Undo, Redo and Apply Crop buttons.
- **Page.** The effect search, the upload handler with its MIME check, and "New Image".
- **`debounce` helper.**

Numbers on pixel data are reals. Every store into pixel data, a `Uint8ClampedArray`, is the ToUint8Clamp conversion of ECMA-262 (section 7.1.12): clamp to [0, 255], then round half to even. `Math.round` rounds half up. JavaScript's `%` keeps the sign of the dividend. A number assigned to `canvas.width` or `canvas.height` is first converted to a WebIDL `unsigned long`: truncated and reduced modulo 2^32. Both are reflected content attributes. By the HTML Standard's rules for reflecting `unsigned long` attributes, a value above 2^31 - 1 is replaced by the attribute's default: 300 for the width, 150 for the height.

Images are opaque values; the model does not say how a canvas draws them. Instead:

- the render path's output is a function parameter (`render`) of the input image and the steps run;
- the output of the rotate, flip and crop drawings is a value parameter (`drawn`);
- rotate, flip and crop are modelled separately for their geometry, on image sizes and on the orientation of the content.

Each React handler is one atomic step. It reads the state of the render in which it was created, which is what produces the findings below.

The modules, one per file:

| module | file |
|---|---|
| `Wrappers` | `wrappers.dfy` |
| `Channel` | `channel.dfy` |
| `Hsl` | `hsl.dfy` |
| `PixelFilters` | `pixel_filters.dfy` |
| `ImageData` | `image_data.dfy` |
| `Dispatch` | `dispatch.dfy` |
| `EditHistory` | `history.dfy` |
| `Geometry` | `geometry.dfy` |
| `ImageEditor` | `image_editor.dfy` |
| `Processor` | `processor.dfy` |
| `Page` | `page.dfy` |
| `Debounce` | `debounce.dfy` |

Three behaviours of the code are worth knowing before reading the model:

- **History's first entry.** Index 0 of the history is not always the original image (finding 1).
- **Crop rectangles.** Crop rectangles are not validated. Rectangles that run past the image's edge, and empty ones, are accepted: see `Geometry.CropOverhangKept`, `Geometry.CropEmptyKept` and `ImageEditor.EmptySelectionAccepted`.
- **Anchor clamping.** Only the end point of a drag is clamped to the element. The anchor is not: see `ImageEditor.AnchorNotClamped`.

## Model

| member | source | states |
|---|---|---|
| Channel.ToUint8Clamp | hooks/use-image-processor.tsx:216 | A stored number becomes a byte: 0 at or below 0, 255 at or above 255, otherwise within 0.5 of the number, with ties going to the even byte. |
| Channel.ToUint8ClampOfByte | hooks/use-image-processor.tsx:216 | Storing a byte that was read from the data gives the same byte back. |
| Channel.ToUint8ClampMonotone | hooks/use-image-processor.tsx:262-264 | A larger number never becomes a smaller byte. |
| Channel.Min255 | hooks/use-image-processor.tsx:262 | `Math.min(255, x)` is at most 255 and at most x, and is one of the two. |
| Channel.Min255Redundant | hooks/use-image-processor.tsx:228-230 | The `Math.min(255, …)` guard before a store never changes the stored byte. |
| Channel.StoreMin | hooks/use-image-processor.tsx:262-264 | The guard followed by the store gives a byte, equal to storing the unguarded number. |
| Channel.MathRound | hooks/use-image-processor.tsx:541 | `Math.round` gives the integer n with x - 0.5 < n <= x + 0.5. |
| Channel.MathRoundOfInt | hooks/use-image-processor.tsx:541 | `Math.round` leaves integers alone. |
| Channel.Trunc | hooks/use-image-processor.tsx:191-192 | Truncation toward zero: below a non-negative number by less than one, above a negative one by less than one. |
| Channel.Rem360 | hooks/use-image-processor.tsx:317 | `x % 360` keeps the sign of x, leaves [0, 360) alone, and differs from x by a whole number of turns. |
| Channel.Rem360Periodic | hooks/use-image-processor.tsx:317 | Adding any whole number of turns to a hue in [0, 360) is undone by `% 360`. |
| Hsl.UnitToHsl | hooks/use-image-processor.tsx:484-515 | The hue lies in [0, 1). Saturation and lightness lie in [0, 1]. Saturation is 0 exactly when the three channels are equal, and then the hue is 0 and the lightness is the channel. |
| Hsl.RgbToHsl | hooks/use-image-processor.tsx:484-515 | The same facts on three bytes: for a gray byte g, lightness times 255 is g. |
| Hsl.HueOf | hooks/use-image-processor.tsx:499-511 | The hue of a colour with distinct largest and smallest channels lies in [0, 1). |
| Hsl.SatOf | hooks/use-image-processor.tsx:497 | The saturation of such a colour lies in (0, 1]. |
| Hsl.Hue2Rgb | hooks/use-image-processor.tsx:524-531 | For t in [-1, 2], `hue2rgb(p, q, t)` lies between p and q. |
| Hsl.HslToRgb | hooks/use-image-processor.tsx:518-542 | A colour with zero saturation becomes a gray: all three channels equal the rounded lightness. |
| Hsl.PQBounds | hooks/use-image-processor.tsx:533-534 | For saturation and lightness in [0, 1]: 0 <= p <= q <= 1. |
| Hsl.HslToRgbBytes | hooks/use-image-processor.tsx:518-542 | `hslToRgb` of a colour on the unit cube gives three bytes. |
| Hsl.PQOfChromatic | hooks/use-image-processor.tsx:493-497 | The q and p computed back from a colour's saturation and lightness are its largest and smallest channels. |
| Hsl.ChromaticBack | hooks/use-image-processor.tsx:536-538 | For a colour with distinct largest and smallest channels, the three `hue2rgb` calls rebuild the red, green and blue channels. |
| Hsl.UnitRoundTrip | hooks/use-image-processor.tsx:484-542 | Converting channels on the unit interval to HSL and back, before rounding, gives the same channels. |
| Hsl.RoundTrip | hooks/use-image-processor.tsx:484-542 | `hslToRgb(...rgbToHsl(r, g, b))` gives back every byte triple exactly. |
| PixelFilters.GrayscalePixel | hooks/use-image-processor.tsx:211-219 | Grayscale gives a gray pixel, keeps alpha, and leaves an already gray pixel unchanged. |
| PixelFilters.SepiaPixel | hooks/use-image-processor.tsx:221-233 | Sepia gives a valid pixel and keeps alpha. |
| PixelFilters.SepiaOrdered | hooks/use-image-processor.tsx:228-230 | After sepia, red >= green >= blue, because every row of the matrix reads the unmodified channels. |
| PixelFilters.BrightnessPixel | hooks/use-image-processor.tsx:256-268 | Brightness gives a valid pixel and keeps alpha. |
| PixelFilters.BrightnessNeutralIff | hooks/use-image-processor.tsx:259-264 | Brightness leaves every pixel unchanged if and only if the value is 100. |
| PixelFilters.ContrastChannel | hooks/use-image-processor.tsx:276 | One contrast channel is a byte, and 128 is a fixed point. |
| PixelFilters.ContrastPixel | hooks/use-image-processor.tsx:270-282 | Contrast gives a valid pixel, keeps alpha and keeps each channel equal to 128. |
| PixelFilters.ContrastNeutralIff | hooks/use-image-processor.tsx:273-278 | Contrast leaves every pixel unchanged if and only if the value is 50. The factor is value / 50, so the slider default of 100 is not neutral. |
| PixelFilters.ContrastMovesGray | hooks/use-image-processor.tsx:273-278 | Contrast 100 takes gray 100 to 72. |
| PixelFilters.SaturationChannel | hooks/use-image-processor.tsx:296 | One saturation channel is a byte. At value 0 it is the stored luma. |
| PixelFilters.SaturationPixel | hooks/use-image-processor.tsx:284-302 | Saturation gives a valid pixel and keeps alpha. At value 0 the pixel is gray. |
| PixelFilters.SaturationNeutralIff | hooks/use-image-processor.tsx:287-298 | Saturation leaves every pixel unchanged if and only if the value is 100. |
| PixelFilters.CrossProcessPixel | hooks/use-image-processor.tsx:345-368 | Cross-process keeps alpha. Blue is boosted by 1.2 exactly when red and green are both below 120. No channel ever decreases. Green changes only when red is above 80. Red changes only in a highlight, where red and the final green are both above 150. |
| PixelFilters.CrossProcessHighlightReadsBoostedGreen | hooks/use-image-processor.tsx:355-364 | For every pixel with red strictly between 80 and 180, red is boosted exactly when red is above 150 and the midtone-boosted green is above 150. The original green does not decide it. |
| PixelFilters.CrossProcessReadsRewrittenGreen | hooks/use-image-processor.tsx:356-364 | The highlight test reads the green byte the midtone boost has just written: (160, 130, 50) becomes (176, 172, 50). |
| PixelFilters.ShiftedHue | hooks/use-image-processor.tsx:317 | For a hue in [0, 1) and a non-negative angle, the shifted hue lies in [0, 1). |
| PixelFilters.HueShiftPixel | hooks/use-image-processor.tsx:304-328 | The hue shift gives a valid pixel and keeps alpha. |
| PixelFilters.HueShiftKeepsGray | hooks/use-image-processor.tsx:314-324 | A gray pixel is unchanged by every hue shift. |
| PixelFilters.HueShiftWholeTurns | hooks/use-image-processor.tsx:314-324 | A shift by any whole number of turns leaves every pixel unchanged. |
| PixelFilters.HueShiftRedToCyan | hooks/use-image-processor.tsx:304-328 | A shift by 180 takes pure red to cyan. |
| PixelFilters.FilterPixel | hooks/use-image-processor.tsx:211-328 | Every filter keeps a pixel valid and keeps its alpha. |
| PixelFilters.FilterAllPixel | hooks/use-image-processor.tsx:720-723 | A list of filters run in turn keeps a pixel valid and keeps its alpha. |
| PixelFilters.FilterAllCons | hooks/use-image-processor.tsx:720-723 | The first filter of a list runs first. |
| PixelFilters.NeutralAdjustments | hooks/use-image-processor.tsx:720-723 | Brightness 100, contrast 50, saturation 100 and hue 0, in that order, leave every pixel unchanged. |
| PixelFilters.DefaultAdjustmentsDarkenGray | hooks/use-image-processor.tsx:720-723 | The slider defaults turn gray 100 into gray 72. |
| ImageData.PixelAt | hooks/use-image-processor.tsx:214 | The k-th RGBA quadruple of a buffer is a valid pixel. |
| ImageData.SamePixels | hooks/use-image-processor.tsx:214 | Two buffers of equal length with the same pixels are equal. |
| ImageData.MapPixels | hooks/use-image-processor.tsx:214-218 | A per-pixel operation over the buffer keeps its length, and pixel k of the result is the operation applied to pixel k. |
| ImageData.Apply | hooks/use-image-processor.tsx:211-328 | One filter over the buffer: pixel k of the result is the filter applied to pixel k. |
| ImageData.AlphaUntouched | hooks/use-image-processor.tsx:211-328 | No filter writes any alpha byte. |
| ImageData.StoreColour | hooks/use-image-processor.tsx:322-324 | The three stores at offset i set pixel i/4 and leave every other pixel and every later byte as they were. |
| ImageData.MapInPlace | hooks/use-image-processor.tsx:308-327 | The in-place loop, stepping by four, computes the same buffer as the per-pixel map. |
| ImageData.FilterInPlace | hooks/use-image-processor.tsx:304-328 | The loop of a filter gives that filter's buffer. |
| ImageData.MapAll | hooks/use-image-processor.tsx:330-343 | Several passes give each pixel the composition of the operations, first one first. |
| ImageData.MapAllConcat | hooks/use-image-processor.tsx:720-723 | Running two lists of passes back to back is running their concatenation. |
| ImageData.ComposeFilters | hooks/use-image-processor.tsx:720-723 | Composing the filters' per-pixel operations is running the filters in turn. |
| ImageData.ApplyAll | hooks/use-image-processor.tsx:720-723 | A filter list over the buffer: pixel k of the result is the list run on pixel k. |
| ImageData.ApplyAllConcat | hooks/use-image-processor.tsx:330-343 | Two filter lists back to back over the buffer equal their concatenation. |
| ImageData.GrayscaleIdempotent | hooks/use-image-processor.tsx:211-219 | Grayscale twice is grayscale once, on every buffer. |
| ImageData.NeutralAdjustmentsBuffer | hooks/use-image-processor.tsx:720-723 | The neutral adjustment values leave every buffer unchanged. |
| ImageData.DefaultAdjustmentsChangeGray | hooks/use-image-processor.tsx:720-723 | With the slider defaults, applying adjustments changes a gray buffer. |
| Dispatch.CodeUnitSum | hooks/use-image-processor.tsx:454 | A character below U+10000 contributes its own code. A character above it contributes the two UTF-16 code units it splits into. |
| Dispatch.FoldIsSum | hooks/use-image-processor.tsx:454 | The `reduce` over the code units is the sum of their codes. |
| Dispatch.CodeSumConcat | hooks/use-image-processor.tsx:454 | The hash of a concatenation is the sum of the hashes. |
| Dispatch.SimulatedHue | hooks/use-image-processor.tsx:454-455 | The simulated hue lies in [0, 360) and is the code-unit sum modulo 360. |
| Dispatch.SimulatedHueRotation | hooks/use-image-processor.tsx:454-455 | Swapping the two halves of an identifier keeps its simulated hue. |
| Dispatch.Simulated | hooks/use-image-processor.tsx:445-481 | The simulated effect is a hue shift by the hashed angle followed by the label overlay. |
| Dispatch.Resolve | hooks/use-image-processor.tsx:617-686 | Every rendered effect has one to three steps. An identifier without a case of its own gets the simulated effect. An identifier with its own case never gets the simulated label. |
| Dispatch.ResolveRendersUnlessTransform | hooks/use-image-processor.tsx:617-686 | An identifier leaves the render path if and only if it is rotate, flip or crop. Each of the three selects its own handler. |
| Dispatch.UnknownIsSimulated | hooks/use-image-processor.tsx:684-685 | An identifier without a case of its own gets the simulated effect. |
| Dispatch.Aliases | hooks/use-image-processor.tsx:619-645 | black-white, vintage-film and color-boost act exactly like grayscale, vintage and saturation-boost. |
| Dispatch.PixelSteps | hooks/use-image-processor.tsx:720-723 | A filter list becomes a plan of pixel steps, one per filter, in the same order. |
| Dispatch.PixelStepsRoundTrip | hooks/use-image-processor.tsx:720-723 | Reading the filters back from such a plan gives the list that made it. |
| Dispatch.PixelFiltersOf | hooks/use-image-processor.tsx:617-686 | A plan has a filter list if and only if all its steps are pixel steps, and the list holds those steps' filters in order. |
| Dispatch.PixelOnlyEffects | hooks/use-image-processor.tsx:619-651 | The pixel-only effects and their fixed parameters: brightness 120, contrast 120, saturation 150 or 50, hue shift 180. |
| Dispatch.PopArtIsSimulated | app/page.tsx:130 | The quick effect pop-art is simulated, with hue 347. |
| EditHistory.Initial | hooks/use-image-processor.tsx:29-30 | The history starts empty at index -1, which is valid. |
| EditHistory.Current | hooks/use-image-processor.tsx:740 | There is a current entry exactly when the history is non-empty. |
| EditHistory.Commit | hooks/use-image-processor.tsx:46-52 | A commit keeps the history valid, moves the index one forward, keeps the entries up to the old index, makes the new entry current and leaves nothing to redo. |
| EditHistory.Seed | hooks/use-image-processor.tsx:62-66 | Seeding gives one current entry, with nothing to undo or redo. |
| EditHistory.Undo | hooks/use-image-processor.tsx:737-747 | Past the first entry, undo moves back one and shows that entry. Otherwise it changes nothing. The entries never change. |
| EditHistory.Redo | hooks/use-image-processor.tsx:749-759 | Before the last entry, redo moves forward one and shows that entry. Otherwise it changes nothing. The entries never change. |
| EditHistory.UndoThenRedo | hooks/use-image-processor.tsx:737-759 | Redo after undo restores the history and the image shown. |
| EditHistory.RedoThenUndo | hooks/use-image-processor.tsx:737-759 | Undo after redo restores the history and the image shown. |
| EditHistory.CommitDiscardsRedo | hooks/use-image-processor.tsx:48 | After a commit nothing can be redone, and exactly index + 2 entries remain. |
| EditHistory.CommitKeepsFirst | hooks/use-image-processor.tsx:48 | A commit never changes history's first entry. |
| EditHistory.FirstCommit | hooks/use-image-processor.tsx:46-52 | The first commit from the empty history gives one entry at index 0, with nothing to undo. |
| EditHistory.CommitsKeepPrefix | hooks/use-image-processor.tsx:46-52 | A run of commits keeps the entries up to the old index and appends the new ones in order. The index moves by their number. |
| Geometry.Remainder360 | hooks/use-image-processor.tsx:79 | `a % 360` on integers keeps the sign of a, leaves (-360, 360) alone, and differs from a by a multiple of 360. |
| Geometry.NextRotation | hooks/use-image-processor.tsx:79 | The counter goes from one quarter turn to the next, wrapping from 270 to 0. |
| Geometry.RotatedDims | hooks/use-image-processor.tsx:95-101 | The canvas takes the image's size, swapped exactly when the new rotation is 90 or 270. |
| Geometry.FourRotatesRestoreDims | hooks/use-image-processor.tsx:79-101 | Four rotates bring back both the counter and the canvas size. |
| Geometry.CanvasLength | hooks/use-image-processor.tsx:191-192 | A canvas length lies in [0, 2^31 - 1]. A number in [0, 2^31) is truncated. A number in [2^31, 2^32) gives the default. A number in (-1, 0) gives 0. A number in (-2^31, -1] wraps above 2^31 - 1 and so also gives the default. |
| Geometry.CanvasLengthWraps | hooks/use-image-processor.tsx:191 | Just above 2^32 the conversion keeps the low 32 bits: 4294967301.5 gives 5. |
| Geometry.CropDims | hooks/use-image-processor.tsx:185-192 | For fractions in [0, 1] and image sides up to 2^31 - 1, the crop canvas's width and height are the truncated products of the fractions with the image's width and height. |
| Geometry.CropTooLargeFallsBack | hooks/use-image-processor.tsx:185-192 | A crop whose products pass 2^31 - 1 is not kept: a full selection of a 3000000000 by 3000000000 image gives the default 300 by 150 canvas. |
| Geometry.CropWholeImage | hooks/use-image-processor.tsx:185-192 | Selecting the whole image keeps its size, for sides up to 2^31 - 1. |
| Geometry.CropCentreQuarter | hooks/use-image-processor.tsx:185-192 | The centre quarter of a 400 by 400 image is 200 by 200. |
| Geometry.CropOverhangKept | hooks/use-image-processor.tsx:173-192 | A selection running past the right edge is not rejected: (0.9, 0, 0.2, 0.2) of 100 by 100 gives 20 by 20. |
| Geometry.CropEmptyKept | hooks/use-image-processor.tsx:173-192 | An empty selection is not rejected: it gives a 0 by 0 canvas. |
| Geometry.ComposeActs | hooks/use-image-processor.tsx:104-109 | Composing two orientations in the square's symmetry group is composing their actions on points. |
| Geometry.DrawTransform | hooks/use-image-processor.tsx:106-107 | Drawing with angle r and the mirror flag is r / 90 quarter turns, mirrored as the flag says. |
| Geometry.RotateAsWritten | hooks/use-image-processor.tsx:78-121 | Rotate as written advances the counter, keeps the flag, and turns the current image by the new absolute angle. |
| Geometry.FlipAsWritten | hooks/use-image-processor.tsx:123-158 | Flip as written toggles the flag and keeps the counter and the size. It draws the current image with the current angle, mirrored only when the flag was off. |
| Geometry.Rotate | hooks/use-image-processor.tsx:78-121 | Corrected rotate: the counter advances, the flag is kept, and the size is swapped. |
| Geometry.Flip | hooks/use-image-processor.tsx:123-158 | Corrected flip: the flag toggles, and the counter and size are kept. |
| Geometry.RotateKeepsConsistent | hooks/use-image-processor.tsx:92-109 | The corrected rotate keeps the content turned and mirrored as the counter and flag say. |
| Geometry.RotateKeepsFit | hooks/use-image-processor.tsx:95-101 | The corrected rotate keeps the canvas matching the content's orientation. |
| Geometry.FlipKeepsConsistent | hooks/use-image-processor.tsx:141-146 | The corrected flip keeps the content turned and mirrored as the counter and flag say. |
| Geometry.FlipKeepsFit | hooks/use-image-processor.tsx:137-138 | The corrected flip keeps the canvas matching the content's orientation. |
| Geometry.FourRotatesIdentity | hooks/use-image-processor.tsx:78-121 | Four corrected rotates give back the state. |
| Geometry.TwoFlipsIdentity | hooks/use-image-processor.tsx:123-158 | Two corrected flips give back the state. |
| Geometry.RotateAsWrittenCompounds | hooks/use-image-processor.tsx:82-109 | Two rotates as written leave the counter at 180 but the content turned three quarters. After four, the content is upside down. |
| Geometry.FlipAsWrittenSticks | hooks/use-image-processor.tsx:143-144 | After two flips as written the flag is off but the content is still mirrored. |
| Geometry.FlipAsWrittenClips | hooks/use-image-processor.tsx:137-143 | On a non-square image, a flip after a rotate draws quarter-turned content into an unswapped canvas. |
| ImageEditor.Clamp | components/image-editor.tsx:87-88 | `Math.min(hi, Math.max(0, v))` lies in [0, hi], keeps values in range, and sends the others to the nearer end. |
| ImageEditor.Normalise | components/image-editor.tsx:74-76 | The position relative to the box. A pointer inside the box lands in the unit square. |
| ImageEditor.MouseDown | components/image-editor.tsx:70-80 | Outside crop mode nothing changes. In crop mode the anchor is set at the pointer and the end point and preview are cleared. |
| ImageEditor.Selection | components/image-editor.tsx:94-99 | The selection's top-left is the smaller of the two coordinates, and its far edge is the larger. |
| ImageEditor.MouseMove | components/image-editor.tsx:82-100 | Without crop mode or an anchor nothing changes. Otherwise the end point is clamped into the unit square and the preview is the selection between anchor and end. |
| ImageEditor.MouseUp | components/image-editor.tsx:102-104 | Releasing the button changes nothing. |
| ImageEditor.SelectionInside | components/image-editor.tsx:94-99 | With both corners in the unit square, the selection lies inside it. |
| ImageEditor.SelectionSpansCorners | components/image-editor.tsx:94-99 | The selection contains the anchor and the end point, and each edge passes through one of them. |
| ImageEditor.DragStaysInside | components/image-editor.tsx:82-100 | From an anchor on the element, every drag gives a preview inside the image. |
| ImageEditor.AnchorNotClamped | components/image-editor.tsx:74-77 | A press outside the box anchors outside the image, and the preview then runs past its edge. |
| ImageEditor.EmptySelectionAccepted | components/image-editor.tsx:94-99 | A press and a move to the same point publish an empty selection and enable Apply Crop. |
| ImageEditor.ReleaseKeepsSelection | components/image-editor.tsx:102-104 | Releasing after a drag keeps the preview. |
| ImageEditor.SplitPosition | components/image-editor.tsx:106-116 | The split lies in [0, 100]. Inside the box it is the pointer's offset as a percentage of the width; outside the box it is 0 on the left and 100 on the right. |
| ImageEditor.TouchSplit | components/image-editor.tsx:119-129 | A touch event with no touches changes nothing. Otherwise the first touch sets the split as the mouse does. |
| ImageEditor.UndoDisabled | components/image-editor.tsx:236 | Undo is disabled at or before the first entry, and in crop mode. |
| ImageEditor.RedoDisabled | components/image-editor.tsx:240 | Redo is disabled at or after the last entry, and in crop mode. |
| ImageEditor.ApplyCropDisabled | components/image-editor.tsx:160 | Apply Crop is disabled until there is a selection. |
| ImageEditor.UndoEnabledIffActs | components/image-editor.tsx:236 | Undo is enabled if and only if crop mode is off and an undo would move. |
| ImageEditor.RedoEnabledIffActs | components/image-editor.tsx:240 | Redo is enabled if and only if crop mode is off and a redo would move. |
| Processor.Start | hooks/use-image-processor.tsx:22-34 | Before loading there is no image, the history is empty and the index is -1. |
| Processor.ExitCropMode | hooks/use-image-processor.tsx:54-59 | Crop mode goes off and the crop fields are cleared. Everything else is kept. |
| Processor.EnterCropMode | hooks/use-image-processor.tsx:160-170 | Crop mode goes on with no selection. The history and image are kept. |
| Processor.ResetEffects | hooks/use-image-processor.tsx:61-76 | With an original, history restarts from it and it is shown; without one, image and history are kept. In every case the sliders, rotation, flip, active effect and crop are reset. |
| Processor.CommitImage | hooks/use-image-processor.tsx:46-52 | The drawn image is shown and committed. It becomes the current entry. |
| Processor.Rotate | hooks/use-image-processor.tsx:78-121 | The counter always advances. The drawn image is committed only when there is an image to load. |
| Processor.Flip | hooks/use-image-processor.tsx:123-158 | The flag always toggles. The drawn image is committed only when there is an image to load. |
| Processor.ApplyCrop | hooks/use-image-processor.tsx:172-208 | Without a selection or an image nothing changes. Otherwise the crop is committed and crop mode is left. |
| Processor.Finish | hooks/use-image-processor.tsx:688-692 | The rendered image is committed, and the processing flag and the active effect are cleared. |
| Processor.ApplyEffectAsWritten | hooks/use-image-processor.tsx:544-699 | Without an image nothing changes. Rotate and flip leave the processing flag on and the effect active. |
| Processor.ApplyEffect | hooks/use-image-processor.tsx:544-699 | Corrected: every path with an image ends idle. Crop only enters crop mode. Every other identifier adds exactly one entry. Render identifiers show the rendered image. |
| Processor.ApplyEffectAgrees | hooks/use-image-processor.tsx:617-686 | For identifiers other than rotate and flip, the corrected dispatcher equals the written one. |
| Processor.RotateLeavesBusy | hooks/use-image-processor.tsx:671-673 | As written, rotate through the dispatcher leaves the editor busy with the same history. Corrected, it ends idle. |
| Processor.AdjustmentSteps | hooks/use-image-processor.tsx:720-723 | The adjustment plan consists of pixel steps only. They read back as the four adjustment filters (brightness, contrast, saturation, hue) with the slider values, in that order. |
| Processor.ApplyAdjustments | hooks/use-image-processor.tsx:701-735 | Without an image nothing changes. Otherwise the adjusted image is committed and shown, and processing ends off. |
| Processor.BlurIgnored | hooks/use-image-processor.tsx:720-723 | The blur slider does not change what is committed. |
| Processor.UndoEdit | hooks/use-image-processor.tsx:737-747 | Undo moves the index back and shows that entry, or changes nothing. |
| Processor.RedoEdit | hooks/use-image-processor.tsx:749-759 | Redo moves the index forward and shows that entry, or changes nothing. |
| Processor.UndoRedoEdit | hooks/use-image-processor.tsx:737-759 | Redo after undo gives back the whole editor state. |
| Processor.ResetKeepsWellFormed | hooks/use-image-processor.tsx:61-76 | The reset keeps the state well formed: the history is valid, the rotation is a quarter turn, crop fields are clear outside crop mode, and the image shown is the current entry. |
| Processor.TransformsKeepWellFormed | hooks/use-image-processor.tsx:78-208 | Rotate, flip and apply-crop keep the state well formed. |
| Processor.ApplyEffectKeepsWellFormed | hooks/use-image-processor.tsx:544-699 | Both dispatchers keep the state well formed. |
| Processor.AdjustKeepsWellFormed | hooks/use-image-processor.tsx:701-735 | Adjustments and entering or leaving crop mode keep the state well formed. |
| Processor.UndoRedoKeepWellFormed | hooks/use-image-processor.tsx:737-759 | Undo and redo keep the state well formed. |
| Processor.MouseKeepsValid | components/image-editor.tsx:70-104 | The crop mouse handlers keep the state well formed. |
| Page.Lower | app/page.tsx:264 | Lower-casing keeps the length and maps every ASCII capital to its small letter. |
| Page.Accepts | app/page.tsx:89 | A file type is accepted if and only if "image" occurs somewhere in it. |
| Page.IncludesIff | app/page.tsx:264 | `includes` finds the query if and only if it occurs at some position. |
| Page.KeepEffects | app/page.tsx:264 | An effect is kept if and only if it is listed and matches, and the kept effects stay in their order. |
| Page.FilterCategories | app/page.tsx:259-267 | An empty query gives the full list. Otherwise the result holds exactly the narrowed categories that keep an effect. They stay in the original category order, and each keeps all its other fields. |
| Page.NarrowAll | app/page.tsx:261-267 | Narrowing drops the categories left with no effect and keeps the others in order, as a subsequence of the list with every category narrowed. |
| Page.SearchFindsExactlyMatches | app/page.tsx:259-267 | Under a non-empty query, an effect is listed if and only if some category holds it and its name contains the query, ignoring ASCII case. |
| Page.SearchIgnoresCase | app/page.tsx:264 | "SEP" finds Sepia and "d" finds HDR; "blur" does not find Sepia. |
| Page.AcceptsPng | app/page.tsx:89 | image/png is accepted. |
| Page.RejectsEmpty | app/page.tsx:89 | An empty type is rejected. |
| Page.AcceptsUnanchored | app/page.tsx:89 | The unanchored pattern accepts text/x-image-map. |
| Page.LoadImageAsWritten | app/page.tsx:88-103 | As written, an accepted file becomes the original. From the upload screen, where no original is held, it is also shown, and history is left exactly as it was. A missing or rejected file changes nothing. (The contract also covers a state that holds an original, where the previous original would be shown; the page offers no upload there.) |
| Page.LoadImage | app/page.tsx:88-103 | Corrected: an accepted file is shown, becomes the original and seeds history, with sliders and transform reset. A missing or rejected file changes nothing. |
| Page.ResetImageAsWritten | app/page.tsx:119-123 | As written, the original is cleared, but the previous original is shown again and seeds history. |
| Page.ResetImage | app/page.tsx:119-123 | Corrected: no image and no original remain, with sliders and transform reset. |
| Page.LoadAsWrittenIsStale | app/page.tsx:88-103 | As written, the first upload leaves history empty and breaks the original-first invariant. The only way to a second upload is load a, then "New Image" twice, then load b. It ends with b shown and b as the original, but history is still the one-entry history of a, so the invariant is broken again. |
| Page.ResetImageAsWrittenKeepsImage | app/page.tsx:119-123 | As written, "New Image" still shows an image. Corrected, it shows none. |
| Page.LoadKeepsOriginalFirst | app/page.tsx:88-123 | The corrected upload and reset keep the original as history's first entry. |
| Page.EffectKeepsOriginalFirst | hooks/use-image-processor.tsx:544-699 | Applying an effect keeps the original first. |
| Page.EditsKeepOriginalFirst | hooks/use-image-processor.tsx:78-208 | Adjustments, rotate, flip and crop keep the original first. |
| Page.UndoRedoKeepOriginalFirst | hooks/use-image-processor.tsx:737-759 | Undo, redo and the reset keep the original first. |
| Page.UndoRedoScenario | app/page.tsx:88-103 | Load, sepia, brightness, undo, undo, redo ends on the sepia result when corrected, and on the brightness result as written. |
| Debounce.OnCall | lib/utils.ts:17-24 | Whatever was pending before, the next timeout runs the function exactly once, with this call's arguments. A cancel before that timeout means nothing runs. |
| Debounce.OnFire | lib/utils.ts:21-23 | A timeout calls the function if and only if a timer was pending, and then with that timer's arguments. Afterwards nothing is pending. When nothing is called, the handle is unchanged. |
| Debounce.OnCancel | lib/utils.ts:26-31 | Cancel always leaves no timer. |
| Debounce.Step | lib/utils.ts:17-31 | Only a timeout with a pending timer calls the function, and only with the pending arguments. After a call, the next timeout runs that call's arguments. After a cancel, the next timeout runs nothing. |
| Debounce.Run | lib/utils.ts:8-34 | From any timer, a run of events calls the function at most once per timeout. |
| Debounce.RunIsDebounced | lib/utils.ts:8-34 | From no pending timer, the function runs at most once per timeout and at most once per call, and only with arguments some call passed. |
| Debounce.CallThenRest | lib/utils.ts:17-24 | The same bounds after a first call, counting that call. |
| Debounce.LastCallWins | lib/utils.ts:17-24 | A burst of calls followed by a timeout runs the function once, with the last call's arguments. |
| Debounce.CancelDropsPending | lib/utils.ts:26-31 | After a cancel, a timeout calls nothing. |
| Debounce.FireOnce | lib/utils.ts:21-23 | A timer runs once: a second timeout with no call between calls nothing. |

## Left out

- Canvas drawing calls are not modelled at the pixel level. They are represented as named steps, and their output is a parameter:
  - sharpen, noise reduction, soft focus and vignette, the vignette step inside vintage and HDR, the label overlay of the simulated effect, and the `drawImage` of rotate, flip and crop;
  - the reason is that their result is produced by the browser's rasteriser.
- The random noise of the vintage effect is not modelled, because it comes from `Math.random`. It is a named step.
- `getContext("2d")` returning null is not modelled, because it is a browser failure path. The dispatcher's early exit on it is left out with it.
- Image decoding failures and `FileReader` are not modelled: a loaded file is its data value.
- Timers, toasts and the 500 ms processing delay are not modelled. Each handler is one atomic step.
- In `Debounce`, time is reduced to "fire" events.
- The adjustment panel's debounced commit is not modelled. It is recreated on every render (components/adjustment-panel.tsx:36), so it only has meaning under React's lifecycle.
- Page.Lower: only ASCII letters are lower-cased. `toLowerCase` also maps other Unicode capitals.
- IEEE double rounding is not modelled. Channel arithmetic is exact over the reals, so rounding of intermediate products (such as the sepia matrix) may differ from the browser's in the last bit.
- ImageEditor.Normalise, ImageEditor.MouseDown, ImageEditor.MouseMove, ImageEditor.SplitPosition and ImageEditor.TouchSplit require a box of non-zero size (the last two only a non-zero width). A zero-size element divides by zero in the source, which gives infinities or NaN; the model excludes that case.
- Geometry.CropDims does not state that the cropped size is at most the image's size. The bounds it states already give each side within one pixel of the exact product.
- PixelFilters.ShiftedHue states the range only for non-negative angles, which is what the hue slider (0 to 360) and the fixed angles supply.
- The Cancel button in crop mode has no `disabled` condition, so there is no predicate for it. Pressing it is Processor.ExitCropMode.
- The download link, `cn`, the gallery, the tabs and other presentational components are not modelled, because they hold no editing logic.
- The before/after switch is not modelled, for the same reason.

## Findings

| source | as written | input that shows it | evidently intended | confidence | as-written member | corrected member |
|---|---|---|---|---|---|---|
| app/page.tsx:93-95 | `handleFile` sets both images, then calls `resetEffects`, which still holds the previous original. The first upload therefore never seeds history. | Load, sepia, brightness, undo, undo, redo: the second undo has nowhere to go and the sequence ends on the brightness result. | History restarts from the loaded image; the sequence ends on the sepia result. | high, not executed | Page.LoadImageAsWritten (Page.LoadAsWrittenIsStale, Page.UndoRedoScenario) | Page.LoadImage (Page.LoadKeepsOriginalFirst, Page.UndoRedoScenario) |
| app/page.tsx:119-123 | "New Image" clears both images, then `resetEffects` shows the previous original again. | Any state with an original: after "New Image" an image is still shown. | The editor clears and the upload screen returns. | high, not executed | Page.ResetImageAsWritten (Page.ResetImageAsWrittenKeepsImage) | Page.ResetImage |
| hooks/use-image-processor.tsx:671-676 | `applyEffect` sets processing on and marks the effect active, but returns for rotate and flip before clearing either. | Apply rotate with an image loaded: processing stays on and rotate stays active. | Every path ends idle, as the crop path and the render path do. | high, not executed | Processor.ApplyEffectAsWritten (Processor.RotateLeavesBusy) | Processor.ApplyEffect |
| hooks/use-image-processor.tsx:82-109, 127-146 | Rotate and flip draw the already transformed current image with the absolute angle and flag, so transforms compound. | Two rotates leave the counter at 180 with content turned 270 degrees. Two flips leave the flag off with content mirrored. A flip after a rotate on a 2 by 1 image draws turned content into an unswapped canvas. | The content is always turned and mirrored as the counter and the flag say. | high, not executed | Geometry.RotateAsWritten, Geometry.FlipAsWritten (Geometry.RotateAsWrittenCompounds, Geometry.FlipAsWrittenSticks, Geometry.FlipAsWrittenClips) | Geometry.Rotate, Geometry.Flip (Geometry.FourRotatesIdentity, Geometry.TwoFlipsIdentity) |
