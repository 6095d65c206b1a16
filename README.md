# Canvas pen and data-URL upload of the MNIST digit predictor

The digit predictor's web page (`static/index.js`) has two pieces of its own
logic. Everything else in the repository is a Flask route or a call into
TensorFlow, TFLite, PIL or numpy. This project models those two pieces in Dafny
and proves properties of the model.

* **The pen** (`handleCanvasEvent`). The page keeps five globals: `isDrawing`,
  `prevX`, `prevY`, `currX` and `currY`. Each event that reaches `handleCanvasEvent` updates them:
  `"down"` starts a stroke and draws a dot; `"move"` during a stroke draws a
  line followed by a dot, and outside one changes nothing; `"up"` and `"out"`
  end the stroke and draw nothing. Any other type is only written to
  `console.error`.
  `CanvasPen.Step` is the function on values. `CanvasPen.Pen` is the class whose
  method `HandleCanvasEvent` updates the same fields in place. The canvas
  drawing calls become `Dot`/`Line` commands appended to a log: `drawDotToCanvas`
  draws at (currX, currY), and `drawLineToCanvas` draws from (prevX, prevY) to
  (currX, currY). The console message goes into a second log.
* **The upload** (`dataURLToBlob`). The canvas PNG arrives as a data URL
  (RFC 2397, section 3). The function splits it at `,` into header and payload,
  takes the MIME type from the header, and decodes the payload with `atob`. It
  then copies the decoded characters into a `Uint8Array` in a loop and wraps the
  result in a `Blob`.
  - `JsString` models `String.prototype.split` with a one-character separator.
  - `Base64` models `atob`: the forgiving-base64 decode algorithm of the WHATWG
    Infra Standard over the alphabet of section 4 of RFC 4648. Its partner is an
    RFC 4648 encoder, standing for what `canvas.toDataURL` writes.
  - `DataUrl` holds the splitting, the MIME extraction, the byte-copy loop
    (method `DataURLToBlob`, proved against the function `BlobOf`) and the
    `Blob` constructor's normalisation of `type`.
* **The touch adapter** (`handleCanvasTouchEvent`). It is modelled only for the
  finding below.

Edge cases the model keeps as the code has them:

* The MIME type is `header.split(":")[1].split(";")[0]`. That is the text after
  the first `:` up to the first `;` **or a second `:`**, or to the end of the
  header (`MimeString`).
* A URL without `,` makes `split(",")[1]` `undefined`. `atob(undefined)` then
  decodes the nine letters `"undefined"` and throws, because nine is 1 modulo 4
  (`NoCommaThrows`).
* A header without `:` throws a TypeError. `atob` runs first (line 109), so its
  error wins over that one (`BlobOf`).

Files: `wrappers.dfy` (Option, Result), `js_string.dfy`, `base64.dfy`,
`data_url.dfy`, `canvas_pen.dfy`, `touch_adapter.dfy`.

## Model

| member | source | states |
|---|---|---|
| `JsString.IndexOf` | static/index.js:109 | the index found holds the separator and no earlier index does |
| `JsString.Split` | static/index.js:109-111 | `split` always yields at least one piece |
| `JsString.JoinSplit` | static/index.js:109-111 | joining the pieces of `split` with the separator gives back the string |
| `JsString.SplitJoin` | static/index.js:109-111 | splitting the join of separator-free pieces gives back the pieces |
| `JsString.SplitLength` | static/index.js:109-111 | `split` has one piece more than the string has separators |
| `JsString.TokenUnique` | static/index.js:111 | at a given start, the run up to the first stop character is unique |
| `JsString.SplitPiecesFree` | static/index.js:109-111 | no piece of `split` holds the separator |
| `JsString.SplitAt` | static/index.js:111 | a separator-free prefix followed by the separator is the first piece, and the rest is split on its own |
| `JsString.SplitFirstToken` | static/index.js:111 | piece 0 is the run from index 0 up to the first separator |
| `JsString.SplitSecondToken` | static/index.js:109 | when the separator occurs, piece 1 is the run after its first occurrence up to the next one |
| `JsString.TokenWithin` | static/index.js:111 | the run up to `;` inside the run up to `:` is the run up to either character |
| `Base64.SextetOf` | static/index.js:109 | the alphabet's decode table: `A`-`Z` give 0-25, `a`-`z` 26-51, `0`-`9` 52-61, `+` 62 and `/` 63, each range exactly |
| `Base64.CharOf` | static/index.js:109 | each sextet maps to an alphabet character that decodes back to it |
| `Base64.CharOfSextetOf` | static/index.js:109 | alphabet characters and sextets are in bijection |
| `Base64.RemoveWhitespace` | static/index.js:109 | `atob`'s first step never lengthens its input and leaves no ASCII whitespace |
| `Base64.RemoveWhitespaceKeepsPlain` | static/index.js:109 | a string without ASCII whitespace passes the first step unchanged |
| `Base64.RemoveWhitespaceAppend` | static/index.js:109 | whitespace removal distributes over concatenation |
| `Base64.StripPadding` | static/index.js:109 | the result is the input with at most two trailing characters removed, each of them `=`; a length not divisible by four passes unchanged, and one divisible by four that ends in `=` loses it |
| `Base64.DecodeChars` | static/index.js:109 | n alphabet characters (n not 1 mod 4) decode to 3 octets per full group of four plus 1 or 2 for a trailing group of 2 or 3, the leftover bits discarded |
| `Base64.PairTailDiscardsLowBits` | static/index.js:109 | a two-character tail uses only the high 2 bits of its second character; the low 4 are discarded |
| `Base64.TripleTailDiscardsLowBits` | static/index.js:109 | a three-character tail uses only the high 4 bits of its third character; the low 2 are discarded |
| `Base64.ForgivingDecode` | static/index.js:109 | decoding fails exactly when the stripped input has length 1 mod 4 or a non-alphabet character; otherwise it gives that many octets |
| `Base64.Atob` | static/index.js:109 | `atob` throws exactly when the decode fails, and character k of its result has the code of decoded octet k |
| `Base64.WhitespaceIgnored` | static/index.js:109 | inserting an ASCII whitespace character anywhere does not change the decode |
| `Base64.LengthOneModFourFails` | static/index.js:109 | any input without whitespace whose length is 1 mod 4 makes `atob` throw |
| `Base64.AtobUndefined` | static/index.js:109 | `atob(undefined)`, i.e. of "undefined", throws |
| `Base64.EncodeTriple` | static/index.js:130 | three octets become four alphabet characters |
| `Base64.EncodePair` | static/index.js:130 | two trailing octets become three alphabet characters |
| `Base64.EncodeSingle` | static/index.js:130 | one trailing octet becomes two alphabet characters |
| `Base64.EncodeUnpadded` | static/index.js:130 | the unpadded encoding of n octets uses only alphabet characters and has 4 per full group of three plus 2 or 3 for a trailing group of 1 or 2; modulo 4 its length is that tail, so never 1 |
| `Base64.UnpaddedLengthMod` | static/index.js:130 | that length modulo four is the tail's length |
| `Base64.Encode` | static/index.js:130 | the padded encoding of n octets has 4·ceil(n/3) characters, a multiple of four |
| `Base64.PaddedLength` | static/index.js:130 | the unpadded length plus the `=` padding is 4·ceil(n/3) |
| `Base64.EncodedCharacters` | static/index.js:130 | the padded encoding holds only alphabet characters and `=` |
| `Base64.DecodeTriple` | static/index.js:109 | four characters of three octets decode to those octets |
| `Base64.DecodePair` | static/index.js:109 | three characters of two octets decode to those octets |
| `Base64.DecodeSingle` | static/index.js:109 | two characters of one octet decode to that octet |
| `Base64.DecodeEncodeUnpadded` | static/index.js:109 | decoding the characters of an encoding gives back the octets |
| `Base64.StripEncoded` | static/index.js:109 | the whitespace and padding steps turn a padded encoding into its unpadded form |
| `Base64.DecodeUnpadded` | static/index.js:109 | `atob` also accepts an encoding without its padding |
| `Base64.DecodeEncode` | static/index.js:109 | round trip: forgivingly decoding the padded encoding of any octets gives them back |
| `DataUrl.ToUint8` | static/index.js:117 | a `Uint8Array` store keeps a value 0..255 and otherwise reduces it modulo 256 |
| `DataUrl.BlobType` | static/index.js:120 | the Blob's type is "" or as long as the given one; every character is printable ASCII and not upper case, and each is the given one or its lower-case form |
| `DataUrl.BlobOf` | static/index.js:107-121 | the result is InvalidCharacterError if `atob` throws; otherwise TypeError if the header has no MIME string; otherwise a Blob whose octets equal the decoded characters' codes one by one, same length, and whose type is the normalised MIME string |
| `DataUrl.DataURLToBlob` | static/index.js:107-121 | the copy loop stores the code of decoded character i at index i of an array of the decoded length, so the method returns exactly `BlobOf` |
| `DataUrl.Header` | static/index.js:111 | the header is everything before the first `,` |
| `DataUrl.Payload` | static/index.js:109 | a payload exists exactly when the URL has a `,`; it runs from after the first `,` up to any second one |
| `DataUrl.AtobArgument` | static/index.js:109 | `atob` sees "undefined" when the URL has no `,`, and otherwise the run after the first `,` up to any second one |
| `DataUrl.NoCommaThrows` | static/index.js:109 | a URL without `,` makes `dataURLToBlob` throw InvalidCharacterError |
| `DataUrl.MimeString` | static/index.js:111 | a MIME string exists exactly when the header has a `:`; it runs from after the first `:` up to the next `;` or `:` |
| `DataUrl.MimeTokenUnique` | static/index.js:111 | that characterisation determines the MIME string, in both directions |
| `DataUrl.OneComma` | static/index.js:109-111 | with exactly one `,`, header and payload are the two sides |
| `DataUrl.Base64HeaderMime` | static/index.js:111 | a header "data:<mime>;base64" with no `:` or `;` in <mime> yields <mime> |
| `DataUrl.BlobTypeKeepsLowerCase` | static/index.js:120 | a printable lower-case type passes the Blob constructor unchanged |
| `DataUrl.BlobTypeFixedPoints` | static/index.js:120 | a type passes the Blob constructor unchanged exactly when it is printable lower-case ASCII |
| `DataUrl.BlobTypeEmpty` | static/index.js:120 | the type becomes "" exactly when it holds a character outside U+0020..U+007E, or is already empty |
| `DataUrl.BlobTypeIdempotent` | static/index.js:120 | normalising the type twice is normalising it once |
| `DataUrl.Base64DataUrlRoundTrip` | static/index.js:130-133 | the base64 data URL that `toDataURL` writes for any octets and a plain lower-case MIME type (such as "image/png") becomes a Blob of exactly those octets with that type |
| `CanvasPen.KindOf` | static/index.js:175-205 | the branch is "down", "up", "out" or "move" exactly when the type is that string; any other string takes the unknown branch |
| `CanvasPen.Step` | static/index.js:174-207 | a step that draws ends with a dot at the new current point; a line is drawn only by a "move" while drawing; the flag is set exactly after "down", or kept by "move"/unknown; only unknown types log |
| `CanvasPen.RunSnoc` | static/index.js:174-207 | one more event extends the state and both logs by exactly what that event's step adds |
| `CanvasPen.RunAppend` | static/index.js:174-207 | running two event sequences one after the other is running their concatenation |
| `CanvasPen.DrawingFlag` | static/index.js:183-193 | after any events, `isDrawing` is true exactly when the most recent "down"/"up"/"out" was "down" (the start value if there is none) |
| `CanvasPen.LineOnlyInStroke` | static/index.js:175-203 | from the page's initial state, an event draws a line only if it is a "move" and the most recent "down"/"up"/"out" was "down" |
| `CanvasPen.PenUpDrawsNothing` | static/index.js:187-203 | with the pen up, events without a "down" draw nothing and leave it up |
| `CanvasPen.NothingDrawnAfterPenUp` | static/index.js:187-203 | after "up" or "out", nothing is drawn until the next "down" |
| `CanvasPen.StepKeepsInvariant` | static/index.js:79-98 | each event keeps the log connected: every line lies between a dot at its start and a dot at its end, and the last command is a dot at the current point |
| `CanvasPen.RunKeepsInvariant` | static/index.js:174-207 | every event sequence keeps that invariant |
| `CanvasPen.Pen.constructor` | static/index.js:34-54 | the globals start as false and zeros, with nothing drawn or logged |
| `CanvasPen.Pen.HandleCanvasEvent` | static/index.js:174-207 | "down" moves curr into prev, sets curr to (clientX − offsetLeft, clientY − offsetTop + scrollY), sets the flag and draws one dot there. "up"/"out" clear the flag and keep the coordinates, drawing nothing. "move" with the flag clear changes nothing. "move" with the flag set shifts the point and draws a line from the old point to the new one, then a dot. Any other type only logs "Unknown event type …". The new state equals `Step`'s, and the log invariant is kept |
| `TouchAdapter.TouchEventAsWritten` | static/index.js:226-235 | the adapter throws exactly when `touches` is empty |
| `TouchAdapter.TouchEndKeepsStroke` | static/index.js:226-235 | as written, lifting the last finger leaves `isDrawing` set, and a following mouse move draws a line |
| `TouchAdapter.TouchEventCorrected` | static/index.js:226-235 | reading `changedTouches[0]`, "up"/"out" end the stroke and draw nothing, and "down" draws one dot |
| `TouchAdapter.TouchEndEndsStroke` | static/index.js:269-271 | corrected, "touchend" clears the flag and nothing is drawn until the next "down" |

## Left out

- Canvas rendering (`beginPath`, `arc`, `stroke`, `fillRect`) and the brush constants: the dot and line drawers are abstract `Dot`/`Line` commands.
- `clearCanvas` and the `addEventListener` wiring: DOM side effects. `clearCanvas` does not touch the pen state, so the model misses nothing about the pen.
- `saveAndSendCanvasImage`: `fetch`, JSON parsing and DOM display. Only its call `canvas.toDataURL` stands in the model, as the base64 encoder of `Base64DataUrlRoundTrip`; PNG encoding itself is not modelled.
- `CanvasPen.Pen.HandleCanvasEvent`: `clientX`, `clientY`, `window.scrollY` and the canvas offsets are JavaScript numbers (doubles). The model takes them as integers, so fractional coordinates and rounding are not covered.
- `handleCanvasTouchEvent`'s `preventDefault` call: browser scrolling behaviour.
- UTF-16: JavaScript strings are UTF-16 code units and Dafny strings are Unicode scalar values. The two agree on everything `atob` accepts, since any character outside the base64 alphabet makes it fail. The header is split on `,`, `:` and `;`, which are ASCII and so one code unit either way, and `BlobType` turns a type holding any non-ASCII code unit or scalar value into "" in both representations, so nothing is lost there either.
- The server side (app.py, utils/__init__.py, model-predicting.py, model-training.py, model-convert-tflite.py): HTTP routing, PIL and numpy floating-point preprocessing, and TensorFlow/TFLite library calls. These files are not part of this model.

## Findings

| source | as written | input that shows it | evidently intended | confidence | as-written member | corrected member |
|---|---|---|---|---|---|---|
| static/index.js:231 | the touch point is `event.touches[0]`, which on `touchend` no longer holds the lifted finger, so reading `clientX` throws before `"up"` reaches the pen | `touchstart`, then `touchend` with an empty `touches` list; `isDrawing` stays true, and a later mouse move over the canvas draws a line from the last touch point | `touchend` ends the stroke, e.g. by reading `event.changedTouches[0]` | high; not executed | `TouchAdapter.TouchEndKeepsStroke` | `TouchAdapter.TouchEndEndsStroke` |
