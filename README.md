# Flat-colour icon classifier and AI-model registry, in Dafny

This project models two parts of the launcher's main process and proves
properties of them.

**The icon classifier** (`ImageAnalysis`, with `ColorFormat` for the text
formats it uses) decides whether a decoded RGBA bitmap is a simple one-colour
icon on a transparent background. If it is, it also reports the icon's
colour as `#rrggbb` and whether that colour is dark. The model starts from
the decoded buffer with four channels per pixel, and from the channel count
the decoder reported. It runs the same steps as the source:

- the alpha-channel gate;
- pass 1, which counts opaque pixels (alpha > 128), builds a histogram of
  exact colours and keeps a running maximum;
- pass 2, which counts the opaque pixels closer than 30 to the dominant
  colour in RGB space;
- the two ratio gates (similarity > 0.85 and transparency > 0.1);
- the luma test (< 0.5) and the hexadecimal rendering.

Passes 1 and 2 are methods with loops over an `array<byte>`, and the whole
analysis is a method that calls them. Each is proved equal to a
specification function on the buffer's contents: `OpaqueCount`, `ColorCount`/`Histogram`, `Dominant`,
`SimilarCount` and `Analyze`. The lemmas about those functions cover:

- the dominant colour is the most frequent one;
- how ties are broken;
- bounds between the counts;
- which buffers can or cannot be simple icons;
- the output format and its round trip.

Every floating-point test of the source is evaluated in an exact integer
form, and separate lemmas show that over the reals each integer form is
equivalent to the source's test.

**The AI-model registry** (`AiModels`) keeps a list of model records in one
stored document and offers four operations:

- `getAllModels` returns the stored array, or an empty list if the document
  is missing, is not an array, or cannot be read.
- `addModel` checks the required fields, rejects a duplicate `id` and appends
  the record.
- `updateModel` checks the required fields and replaces the first record with
  the same `id`.
- `deleteModel` removes the first record with the given `id`.

The list logic is modelled as pure functions (`Add`, `Update`, `Delete`).
The registry object is a class whose field `stored` the methods read and
write back. Each method is proved to leave the document unchanged on every
error path. It is also proved to keep `id`s unique, and `Delete` undoes
`Add`.

**Tie-break.** The running maximum of pass 1 changes only when a count is
strictly larger than `maxCount` (imageAnalysis.ts line 130). So among colours
with the same final count, the winner is the first to *reach* that count.
This need not be the colour seen first. `DominantTieBreak` and
`FirstToReachWins` state the rule, and `TieBreakExample` is a buffer where
the colour seen first loses.

## Model

| member | source | states |
|---|---|---|
| ImageAnalysis.AnalysisResult | src/main/api/shared/imageAnalysis.ts:7-12 | The `ImageAnalysisResult` record: `isSimpleIcon`, `mainColor` (a `#rrggbb` string, or `None` for `null`), `isDark` and `needsAdaptation`. |
| ImageAnalysis.Histogram | src/main/api/shared/imageAnalysis.ts:120-128 | The colours of the opaque pixels among the first `n`, with multiplicity: the contents of `colorMap` as a multiset. |
| ImageAnalysis.ColorCount | src/main/api/shared/imageAnalysis.ts:126-128 | The value `colorMap.get(key)` holds for colour `c` after `n` pixels: the number of opaque pixels of exactly that colour. |
| ImageAnalysis.Mode | src/main/api/shared/imageAnalysis.ts:114-115 | The pair `mainColor`/`maxCount` of pass 1; colour `None` stands for the initial `''`, before any opaque pixel. |
| ImageAnalysis.OpaqueCount | src/main/api/shared/imageAnalysis.ts:117-122 | The number of opaque pixels (alpha > 128) among the first `n` never exceeds `n`. |
| ImageAnalysis.HistogramSize | src/main/api/shared/imageAnalysis.ts:120-128 | The histogram's counts add up to the opaque count: the multiset of opaque-pixel colours has exactly `OpaqueCount` elements. |
| ImageAnalysis.HistogramCounts | src/main/api/shared/imageAnalysis.ts:126-128 | The count kept for a colour is its multiplicity in the histogram of opaque-pixel colours. |
| ImageAnalysis.Dominant | src/main/api/shared/imageAnalysis.ts:114-133 | The running maximum of pass 1 has no colour exactly when no pixel is opaque, and then its count is 0. |
| ImageAnalysis.DominantIsMax | src/main/api/shared/imageAnalysis.ts:127-133 | The running maximum's count is the histogram count of its colour, and no colour has a larger count: `mainColor` is a most frequent colour. |
| ImageAnalysis.DominantStep | src/main/api/shared/imageAnalysis.ts:130-133 | One pixel never lowers `maxCount`, and `mainColor` changes only when `maxCount` grows. |
| ImageAnalysis.DominantSettles | src/main/api/shared/imageAnalysis.ts:117-135 | Over the scan `maxCount` only grows, and once it has its final value `mainColor` no longer changes. |
| ImageAnalysis.DominantTieBreak | src/main/api/shared/imageAnalysis.ts:130-133 | Ties go to scan order: at any prefix where some colour already has the final maximal count, the running maximum is already the final answer. |
| ImageAnalysis.TieBreakExample | src/main/api/shared/imageAnalysis.ts:130-133 | For pixels A, B, B, A both colours end with count 2 and B is chosen, though A was seen first: B reached 2 first. |
| ImageAnalysis.SimilarBounds | src/main/api/shared/imageAnalysis.ts:144-165 | Every pixel of the main colour is similar to it and only opaque pixels count, so count of the main colour ≤ `similarPixels` ≤ `opaquePixels`. |
| ImageAnalysis.Analyze | src/main/api/shared/imageAnalysis.ts:99-195 | The verdict: `needsAdaptation == isSimpleIcon`, a colour is reported exactly for simple icons, every rejection is the one all-false result, and a buffer without 4 channels is rejected. |
| ImageAnalysis.HistogramAdd | src/main/api/shared/imageAnalysis.ts:126-128 | Adding one to the entry of an opaque pixel's colour (zero when absent) turns the map for the first `p` pixels into the map for the first `p + 1`. |
| ImageAnalysis.TransparentStep | src/main/api/shared/imageAnalysis.ts:118-120 | A pixel with alpha ≤ 128 changes neither the counts nor the running maximum. |
| ImageAnalysis.OpaqueStep | src/main/api/shared/imageAnalysis.ts:120-133 | An opaque pixel adds one to the opaque count and takes over the running maximum exactly when its new count is strictly larger. |
| ImageAnalysis.BuildHistogram | src/main/api/shared/imageAnalysis.ts:112-135 | Pass 1 returns the opaque count, a map holding each colour's count, and the running maximum `Dominant`; a colour is chosen iff some pixel is opaque, and no map entry exceeds `maxCount`. |
| ImageAnalysis.CountSimilar | src/main/api/shared/imageAnalysis.ts:144-165 | Pass 2 returns the number of opaque pixels whose squared distance to the main colour is below 30². |
| ImageAnalysis.AnalyzePixels | src/main/api/shared/imageAnalysis.ts:99-195 | The two passes, the gates, the luma test and the hex rendering return exactly the verdict `Analyze` defines. |
| ImageAnalysis.OpaqueCountAll | src/main/api/shared/imageAnalysis.ts:117-122 | When every pixel is opaque, the opaque count is the pixel count. |
| ImageAnalysis.OpaqueCountNone | src/main/api/shared/imageAnalysis.ts:117-122 | When no pixel is opaque, the opaque count is 0. |
| ImageAnalysis.TransparentNotSimple | src/main/api/shared/imageAnalysis.ts:137-139 | A buffer without an opaque pixel is never a simple icon. |
| ImageAnalysis.OpaqueNotSimple | src/main/api/shared/imageAnalysis.ts:168-173 | A fully opaque buffer is never a simple icon, however uniform its colour: the transparency gate rejects it. |
| ImageAnalysis.SimpleDescribesDominant | src/main/api/shared/imageAnalysis.ts:168-195 | A simple verdict means: 4 channels; the dominant colour is a most frequent one; it is reported as `#rrggbb` that parses back to it; `isDark` tests that colour; both ratio gates pass. |
| ImageAnalysis.GatesMakeSimple | src/main/api/shared/imageAnalysis.ts:168-195 | Conversely, a 4-channel buffer with an opaque pixel that passes both ratio gates is a simple icon. |
| ImageAnalysis.NotSimple | src/main/api/shared/imageAnalysis.ts:101-103 | The one "not a simple icon" answer (all flags false, no colour) that the alpha gate, the no-opaque-pixel exit (:137-139) and the failed gates (:186-188) return. |
| ImageAnalysis.IsOpaque | src/main/api/shared/imageAnalysis.ts:118-120 | A pixel counts as opaque when its fourth byte, alpha, exceeds 128. |
| ImageAnalysis.ColorAt | src/main/api/shared/imageAnalysis.ts:123-125 | A pixel's colour is its first three bytes, red, green and blue. |
| ImageAnalysis.Lookup | src/main/api/shared/imageAnalysis.ts:127 | `colorMap.get(key) or 0`: the stored count of a colour, and 0 for a colour not yet seen. |
| ImageAnalysis.FirstToReachWins | src/main/api/shared/imageAnalysis.ts:130-133 | If the opaque pixel `q` brings its colour to the final maximal count and no colour had that count before it, that pixel's colour is the dominant one. |
| ImageAnalysis.Dist2 | src/main/api/shared/imageAnalysis.ts:155-159 | The squared Euclidean RGB distance, the radicand of `Math.sqrt`. |
| ImageAnalysis.IsSimilar | src/main/api/shared/imageAnalysis.ts:161 | `distance < 30` with the square root cleared (`Dist2 < 900`); `DistanceGateExact` proves the two readings agree. |
| ImageAnalysis.SimilarCount | src/main/api/shared/imageAnalysis.ts:146-165 | The reference definition of pass 2: opaque pixels similar to the main colour, in scan order; `CountSimilar` is proved equal to it. |
| ImageAnalysis.DominantWithinSimilar | src/main/api/shared/imageAnalysis.ts:130-165 | For the dominant colour, `maxCount ≤ similarPixels ≤ opaquePixels`. |
| ImageAnalysis.IsPureColorIcon | src/main/api/shared/imageAnalysis.ts:168-173 | The gate `similarityRatio > 0.85 && transparencyRatio > 0.1` with both divisions cleared; tied to the ratios by `SimilarityGateExact` and `TransparencyGateExact`. |
| ImageAnalysis.IsDark | src/main/api/shared/imageAnalysis.ts:176-178 | `luminance < 0.5` with the weights and the division by 255 scaled to integers; tied to the real-number formula by `LuminanceGateExact`. |
| ImageAnalysis.SquareBelow | src/main/api/shared/imageAnalysis.ts:155-161 | For non-negative reals, `d < t` exactly when `d² < t²`. |
| ImageAnalysis.DistanceGateExact | src/main/api/shared/imageAnalysis.ts:155-161 | `sqrt(d2) < 30` exactly when `d2 < 900`, so the similarity test needs no square root. |
| ImageAnalysis.RatioAbove | src/main/api/shared/imageAnalysis.ts:169-173 | For a positive denominator, `x / y > k` exactly when `x > k · y`. |
| ImageAnalysis.SimilarityGateExact | src/main/api/shared/imageAnalysis.ts:170-173 | `similarPixels / opaquePixels > 0.85` exactly when `100 · similarPixels > 85 · opaquePixels`. |
| ImageAnalysis.TransparencyGateExact | src/main/api/shared/imageAnalysis.ts:168-173 | `(totalPixels − opaquePixels) / totalPixels > 0.1` exactly when `10 · (totalPixels − opaquePixels) > totalPixels`. |
| ImageAnalysis.LuminanceGateExact | src/main/api/shared/imageAnalysis.ts:176-178 | `(0.299 r + 0.587 g + 0.114 b) / 255 < 0.5` exactly when the integer luma test `IsDark` holds. |
| ImageAnalysis.LumaExamples | src/main/api/shared/imageAnalysis.ts:177-178 | Pure red and black are dark; white is light. |
| ImageAnalysis.HalfRedOpaqueCount | src/main/api/shared/imageAnalysis.ts:117-122 | A transparent pixel followed by an opaque red one has one opaque pixel. |
| ImageAnalysis.HalfRedDominant | src/main/api/shared/imageAnalysis.ts:117-135 | In that buffer the running maximum is red with count 1. |
| ImageAnalysis.HalfRedSimilarCount | src/main/api/shared/imageAnalysis.ts:146-165 | In that buffer one pixel is similar to red. |
| ImageAnalysis.HalfTransparentRedExample | src/main/api/shared/imageAnalysis.ts:168-195 | That 2 × 1 buffer is a simple, dark icon of colour `#ff0000`. |
| ColorFormat.ColorKey | src/main/api/shared/imageAnalysis.ts:126 | The histogram key `${r},${g},${b}`: the three channels in decimal, separated by commas. |
| ColorFormat.ParseDecimal | src/main/api/shared/imageAnalysis.ts:142 | `Number` on a non-empty string of decimal digits; absent for any other text (see "## Left out"). |
| ColorFormat.ParseChannel | src/main/api/shared/imageAnalysis.ts:142 | `Number` on one part of the key, kept only when it is a channel value 0..255. |
| ColorFormat.ParseColorKey | src/main/api/shared/imageAnalysis.ts:142 | `mainColor.split(',').map(Number)` read as a colour, also the second reading at :176; absent unless the key has exactly three channel parts. |
| ColorFormat.HexByte | src/main/api/shared/imageAnalysis.ts:179 | One channel as two lower-case hex digits, `x / 16` then `x % 16`; `PaddedToHexIsHexByte` proves it equals `x.toString(16).padStart(2, '0')`. |
| ColorFormat.HexColor | src/main/api/shared/imageAnalysis.ts:179 | The `#rrggbb` template: `#` followed by each channel as two lower-case hex digits; `PaddedToHexIsHexByte` ties each pair to `toString(16).padStart(2, '0')`. |
| ColorFormat.DecimalDigit | src/main/api/shared/imageAnalysis.ts:126 | A digit below 10 is rendered as the character with that value. |
| ColorFormat.Decimal | src/main/api/shared/imageAnalysis.ts:126 | A channel's decimal text is non-empty, made of digits only, and never contains the separator `,`. |
| ColorFormat.DecimalRoundTrip | src/main/api/shared/imageAnalysis.ts:142 | `Number` applied to a channel's decimal text gives the channel back. |
| ColorFormat.Split | src/main/api/shared/imageAnalysis.ts:142 | `split(',')` always gives at least one part. |
| ColorFormat.SplitWithoutSeparator | src/main/api/shared/imageAnalysis.ts:142 | A text without the separator is one part, and a separator after it starts the next part. |
| ColorFormat.ColorKeyRoundTrip | src/main/api/shared/imageAnalysis.ts:142 | Splitting the colour key `r,g,b` at commas and converting each part with `Number` gives the colour back; likewise the second reading at line 176. |
| ColorFormat.ColorKeyInjective | src/main/api/shared/imageAnalysis.ts:126 | Distinct colours have distinct keys, so keying the histogram by the key string is keying it by colour. |
| ColorFormat.HexDigit | src/main/api/shared/imageAnalysis.ts:179 | A value below 16 is rendered as a lower-case hexadecimal digit. |
| ColorFormat.HexValue | src/main/api/shared/imageAnalysis.ts:179 | A character has a hexadecimal value exactly when it is a lower-case hex digit, and the value names that digit. |
| ColorFormat.HexValueOfDigit | src/main/api/shared/imageAnalysis.ts:179 | Reading the rendered digit back gives the value. |
| ColorFormat.ToHex | src/main/api/shared/imageAnalysis.ts:179 | `toString(16)` is non-empty and made of lower-case hex digits. |
| ColorFormat.PadStart | src/main/api/shared/imageAnalysis.ts:179 | `padStart` reaches the target width (or keeps a longer text), ends with the text itself and fills only with the fill character. |
| ColorFormat.PaddedToHexIsHexByte | src/main/api/shared/imageAnalysis.ts:179 | `x.toString(16).padStart(2, '0')` is the two hexadecimal digits of `x / 16` and `x % 16`. |
| ColorFormat.HexColorShape | src/main/api/shared/imageAnalysis.ts:179 | The rendered colour is `#` followed by six lower-case hex digits. |
| ColorFormat.HexByteRoundTrip | src/main/api/shared/imageAnalysis.ts:179 | Reading the two rendered digits of a channel back gives the channel. |
| ColorFormat.HexColorRoundTrip | src/main/api/shared/imageAnalysis.ts:179 | Parsing `#rrggbb` back gives the colour, for every colour. |
| ColorFormat.ParseHexByteInverse | src/main/api/shared/imageAnalysis.ts:179 | Two digits that parse to a channel are exactly that channel's rendering. |
| ColorFormat.ParseHexColorInverse | src/main/api/shared/imageAnalysis.ts:179 | A text that parses to a colour is exactly that colour's rendering, so rendering is a bijection onto the `#rrggbb` strings. |
| ColorFormat.RedHexColor | src/main/api/shared/imageAnalysis.ts:179 | Pure red is rendered as `#ff0000`. |
| AiModels.AiModel | src/main/api/renderer/aiModels.ts:7-15 | The model record: `id`, `label` (here `modelLabel`), `apiUrl`, `apiKey`, and the optional `description`, `icon` and `cost`. |
| AiModels.StoredDoc | src/main/api/renderer/aiModels.ts:96-104 | What `dbGet` yields for the registry key: no document, a read that throws, an array of models, or any other value. |
| AiModels.Response | src/main/api/renderer/aiModels.ts:110 | The `{ success, error? }` reply of `addModel`, `updateModel` (:135) and `deleteModel` (:161). |
| AiModels.Message | src/main/api/renderer/aiModels.ts:113 | The three error texts: missing fields (:113, :138), duplicate id (:120) and model not found (:146, :167). |
| AiModels.ModelsOf | src/main/api/renderer/aiModels.ts:96-104 | The list the three operations start from: the stored array, or `[]` when the document is missing, not an array or unreadable. |
| AiModels.HasRequiredFields | src/main/api/renderer/aiModels.ts:112 | The required-field check of :112 and :137: `id`, `label`, `apiUrl` and `apiKey` are all non-empty. |
| AiModels.ContainsId | src/main/api/renderer/aiModels.ts:119 | `models.some(m => m.id === id)` holds exactly when some position has that id. |
| AiModels.FindIndex | src/main/api/renderer/aiModels.ts:144 | `findIndex` is −1 exactly when no entry has the id; otherwise it is a position with the id and no earlier position has it. |
| AiModels.Add | src/main/api/renderer/aiModels.ts:110-130 | Missing required fields fail first, then a duplicate id; success happens exactly when neither applies and appends the record after the unchanged list. |
| AiModels.Update | src/main/api/renderer/aiModels.ts:135-156 | Missing required fields fail first, then an unknown id; on success only the first entry with the id is replaced, and the length is kept. |
| AiModels.Delete | src/main/api/renderer/aiModels.ts:161-177 | An unknown id fails; otherwise the first entry with the id is removed and the others keep their order. |
| AiModels.AddPreservesUnique | src/main/api/renderer/aiModels.ts:118-124 | With unique ids, a successful add keeps them unique and the new id is then present. |
| AiModels.UpdatePreservesUnique | src/main/api/renderer/aiModels.ts:143-150 | With unique ids, a successful update keeps them unique. |
| AiModels.DeletePreservesUnique | src/main/api/renderer/aiModels.ts:164-171 | With unique ids, a successful delete keeps them unique and leaves no entry with the deleted id. |
| AiModels.DeleteKeepsLaterDuplicates | src/main/api/renderer/aiModels.ts:165-171 | Without unique ids, only the first match is removed: a later entry with the same id remains. |
| AiModels.AddThenDelete | src/main/api/renderer/aiModels.ts:119-124 | Deleting the id of a model just added gives the original list back. |
| AiModels.UpdateIdempotent | src/main/api/renderer/aiModels.ts:144-150 | Repeating a successful update with the same record yields the same list. |
| AiModels.AiModelsApi.constructor | src/main/api/renderer/aiModels.ts:20-21 | The registry starts from the given stored document. |
| AiModels.AiModelsApi.GetAllModels | src/main/api/renderer/aiModels.ts:94-105 | The stored array when the document is one; the empty list when it is missing, not an array, or unreadable. |
| AiModels.AiModelsApi.AddModel | src/main/api/renderer/aiModels.ts:110-130 | Succeeds exactly when `Add` does and then stores its list; on failure the document is unchanged and the error text matches the failure; unique ids stay unique. |
| AiModels.AiModelsApi.UpdateModel | src/main/api/renderer/aiModels.ts:135-156 | Succeeds exactly when `Update` does and then stores its list; on failure the document is unchanged and the error text matches the failure; unique ids stay unique. |
| AiModels.AiModelsApi.DeleteModel | src/main/api/renderer/aiModels.ts:161-177 | Succeeds exactly when `Delete` does and then stores its list; on failure the document is unchanged with the not-found text; with unique ids, none with the deleted id remains. |

## Left out

- Reading the image: data URLs, `http(s)` URLs, `file:` URLs, the Vite asset paths, relative paths and file reads (imageAnalysis.ts lines 14–92). These are I/O, so the model starts from the decoded buffer.
- Image decoding and the resize to 32 × 32 with a transparent background (the `sharp` calls). These are a foreign library. The model requires a buffer of exactly `4 · width · height` bytes, which is what the resize produces.
- The logging and the `catch` that turns any thrown error into the not-simple verdict. Logging has no effect on the result, and the model has no exceptions.
- `ImageAnalysis.Analyze`: the floating-point tests are evaluated exactly, and IEEE-754 rounding is not modelled. The `…GateExact` lemmas prove that the integer forms agree with the real-number reading. They can differ from double-precision arithmetic only at an exact boundary. For the luma test, 114 colours satisfy `299r + 587g + 114b = 127500`, and for 44 of them the double-precision formula gives slightly less than 0.5. For example, `(0, 204, 68)` gives 0.49999999999999994, so the source reports it dark where `IsDark` says light.
- `ImageAnalysis.Analyze`: the total pixel count is `width * height` for any width and height. The source resizes every image to 32 × 32 (imageAnalysis.ts line 107), so there it is always 1024. The model is a generalisation of that fixed size.
- `ImageAnalysis.BuildHistogram`: the map is keyed by `Color`, not by the string `r,g,b`. `ColorKeyInjective` and `ColorKeyRoundTrip` show the two keyings give the same counts and the same colour back.
- `ImageAnalysis.Analyze`: `Number()` is applied only to the key strings the code builds. Its behaviour on other text (whitespace, signs, exponents) is not modelled.
- The registry's IPC handlers (`setupIPC`, `init`) and the `{ success, data }` envelope. They are message routing.
- The database layer's own behaviour (`dbGet`, `dbPut`, the document revision `_rev`, the `ZTOOLS/` prefix). The class models the document as one field that `dbGet` reads and `dbPut` overwrites.
- A `dbPut` that throws is not modelled. In the source the IPC handler catches it.
- Concurrency between overlapping asynchronous calls. Each method is modelled as atomic.
- `AiModels.AiModel`: the field `label` is named `modelLabel`, because `label` is a Dafny keyword.
- `AiModels.AiModel`: the source trusts that the stored array's elements are `AiModel` records. The model gives them that type.
- `AiModels.HasRequiredFields`: tests only for empty strings. JavaScript's `!value` also treats `undefined` as missing, and the model's typed record cannot be undefined.
- windowsLauncher.ts is not part of this model.
