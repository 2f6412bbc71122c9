# profile-generator-js, modelled in Dafny

The library draws a square avatar for an identifier. The background colour
comes from the identifier via `stringToColor`. Over it the library draws
either the identifier's initials or a custom icon. An SVG icon is fetched,
recoloured to the foreground colour and handed back as an object URL. This
project models the logic that decides all of that, stated as pure functions
over immutable values, and proves what the code promises about it:

- `js.dfy` (`Js`): the bits of the JavaScript runtime the code leans on.
  - `undefined`-able values.
  - The UTF-16 code units that `length` and `charCodeAt` read.
  - `String.prototype.includes`.
- `color.dfy` (`Color`): `stringToColor`.
  - The 32-bit string hash.
  - ECMAScript ToInt32 at `<<`, `>>` and `& 0xFF`.
  - `toString(16)` and the `("00" + x).slice(-2)` padding.
  - The two loops as written, next to a functional definition.
- `options.dfy` (`Options`): the `AvatarOptions` constructor.
  - The field initialisers run first.
  - `Object.assign` copies the supplied keys over them.
  - A truthy `size` then recomputes `fontSize`.
- `svg.dfy` (`Svg`): `#updateSvgColor` on a document.
  - A document is a sequence of elements in document order.
  - Each element has a tag, whether it has a `style` object, its `fill`/`stroke` attributes and its inline `fill`/`stroke` style.
  - Recolouring either throws before any change, throws part-way and keeps the changes made so far, or runs to the end.
- `icon_media.dfy` (`IconMedia`): the `IconMedia` instance as a state machine.
  - Construction, the fetch response and the body text are its steps.
  - So is the `color` setter.
  - Its content-type test decides whether the icon is an SVG.
- `avatar.dfy` (`Avatar`): `generateAvatar` as a plan.
  - It either throws, or says which layers get painted, on a canvas of which width and height, with what export type, delivered directly or through a promise.

Both `src/index.ts` and its compiled form `dist/index.js` are modelled. They
agree on everything modelled here. `dist/index.js` makes the evaluation
order explicit: the field initialisers of `AvatarOptions` run before
`Object.assign`.

Four details of what the code does, which the model follows:

- The icon promise is never rejected. A failed fetch, or a recolouring that throws inside a callback, leaves it unsettled. The model says so with `Settlement.Unsettled`.
- The canvas is sized from `options.size` as passed, and the defaults are filled in afterwards. Options without a `size` key give a 0 × 0 canvas, because `undefined` converts to 0 (`Avatar.CanvasSizedBeforeDefaults`). A size whose conversion exceeds 2^31 - 1, such as -1, is not stored: the canvas stays at its default 300 × 150 (`Avatar.NegativeSizeCanvas`).
- Passing a constructed `AvatarOptions` instance back through the constructor can lose its `fontSize`. `generateAvatar` does exactly this with its argument (`Options.ReconstructResetsFontSize`, `Avatar.ReusedOptionsLoseFontSize`).
- An icon whose markup lacks `xmlns="http://www.w3.org/2000/svg"` parses into elements without a `style` object. Recolouring then throws at the first style access, after the `svg` element's attributes have been changed (`Svg.ExampleWithoutNamespace`).

## Model

| member | source | states |
|---|---|---|
| Js.Utf16Char | src/index.ts:156-157 | a character outside the Basic Multilingual Plane becomes a surrogate pair that decodes back to it; any other character is one code unit equal to its code point |
| Js.Utf16Length | src/index.ts:156-157 | `str.length` counts code units: equal to the character count exactly for strings within the Basic Multilingual Plane, where `charCodeAt(i)` is the i-th code point; larger otherwise |
| Js.Includes | src/index.ts:185 | `includes` holds exactly when the pattern occurs in the string at some index, case-sensitively; the empty pattern occurs everywhere |
| Color.ToInt32 | src/index.ts:157 | the operand of a bitwise operator lies in the signed 32-bit range and is congruent to the number modulo 2^32 |
| Color.ShiftLeft | src/index.ts:157 | `hash << 5` is the wrapped operand times 32, reduced back into the signed 32-bit range |
| Color.ShiftLeftFive | src/index.ts:157 | `h << 5` equals `32 * h` modulo 2^32, whatever the size of `h` |
| Color.HashStep | src/index.ts:157 | one round `c + ((h << 5) - h)` equals `31 * h + c` modulo 2^32 |
| Color.Hash | src/index.ts:155-158 | after the first loop, `hash` equals the textbook polynomial hash (each code unit added to 31 times the hash before it) modulo 2^32 |
| Color.HashLoop | dist/index.js:150-153 | the first loop as written, over the code units, ends with `hash` equal to `Hash` of them |
| Color.ShiftRight | src/index.ts:161 | `hash >> (i * 8)` is the floor of the wrapped hash divided by 2^(8i), so the sign propagates |
| Color.LowByte | src/index.ts:161 | `& 0xFF` yields a value below 256 congruent to its operand modulo 256 |
| Color.ShiftMaskIsBits | src/index.ts:161 | `ByteAt`, the `(hash >> (i * 8)) & 0xFF` of round i, is bits 8i to 8i+7 of the hash's 32-bit two's complement form, although `>>` works on the signed reading |
| Color.ToHex | src/index.ts:161 | `toString(16)` prints lower-case hexadecimal digits that read back as the number, with no leading zero |
| Color.LastTwo | src/index.ts:161 | `slice(-2)` keeps the last two characters, or the whole string when it is shorter: the string ends with the result |
| Color.HexPair | src/index.ts:161 | the zero-padded `slice(-2)` prints a byte as exactly two hex digits, high digit first, that read back as the byte |
| Color.ColorOfBytes | src/index.ts:159-163 | a hash sign followed by three pairs is a `#rrggbb` colour that decodes to the three bytes in the order printed |
| Color.HashToColor | src/index.ts:159-163 | the colour printed for a hash is a `#rrggbb` string that decodes to bits 0-7, 8-15 and 16-23 of the hash, low byte first |
| Color.PairsComplete | src/index.ts:159-163 | `Pairs`, the colour after each round of appending pairs to `"#"`, is the whole colour after three rounds |
| Color.PairsLoop | dist/index.js:154-158 | the second loop as written ends with `color` equal to the colour `HashToColor` specifies for the hash |
| Color.StringToColor | src/index.ts:154-164 | the result is always `#` plus six lower-case hex digits, spelling bits 0-7, 8-15 and 16-23 of the 32-bit hash of the UTF-16 code units, low byte first |
| Color.StringToColorLoops | dist/index.js:149-159 | the two loops as written compute the colour the functional definition specifies |
| Color.ColorOfPolyHash | src/index.ts:154-164 | the 32-bit wrap-around never shows: every identifier gets the colour of its unbounded polynomial hash |
| Color.EmptyIsBlack | src/index.ts:155-162 | the empty identifier hashes to 0 and gets `#000000` |
| Color.Low24FromBits | src/index.ts:160-162 | the three printed bytes are exactly the low 24 bits of the hash |
| Color.HashColorIffLow24 | src/index.ts:159-163 | two hash values print the same colour if and only if they agree on their low 24 bits |
| Color.SameColorIffLow24 | src/index.ts:155-162 | two identifiers get the same colour if and only if their hashes agree modulo 2^24: bits 24-31 never appear |
| Color.SmallHashColor | src/index.ts:159-163 | a hash below 2^24 prints its own bytes, low byte first |
| Color.ColorOfHash61 | src/index.ts:159-163 | the hash 0x61 prints as `#610000` |
| Color.ColorOfHashC21 | dist/index.js:154-158 | the hash 0xC21 prints as `#210c00`, low byte first |
| Color.ExampleOneLetter | src/index.ts:154-164 | `stringToColor("a")` is `#610000` |
| Color.ExampleTwoLetters | dist/index.js:149-159 | `stringToColor("ab")` is `#210c00`: its polynomial hash is 31 * 97 + 98 = 0xC21 |
| Options.Initialised | src/index.ts:139-145 | the field initialisers give size 500, foreground "white", font "Arial", weight "bold", export "image/png", no icon, and a `fontSize` of half the size just set, 250 |
| Options.Assign | src/index.ts:133 | `Object.assign` replaces each field whose key is present and keeps each field whose key is absent; no keys change nothing |
| Options.Construct | src/index.ts:131-147 | each supplied key replaces its default (500, "white", "Arial", "bold", "image/png", no icon); `fontSize` is half a truthy supplied `size`, else the supplied `fontSize`, else 250 |
| Options.Defaults | src/index.ts:139-145 | `new AvatarOptions()` has size 500, foreground "white", font "Arial", fontSize 250, weight "bold", export "image/png" and no custom icon |
| Options.AsProperties | dist/index.js:130-137 | the own keys of a constructed instance are all its fields with their values, with `customIcon` present only when set; copying them over the instance leaves it unchanged |
| Options.SuppliedKeysWin | dist/index.js:130-141 | defaults are assigned before `Object.assign`, so every supplied key wins, except that a truthy `size` overrides a supplied `fontSize` |
| Options.FontSizeIsHalfSize | src/index.ts:133-136 | `fontSize` ends up half of `size` if and only if a truthy size was supplied or the supplied-or-default pair already has that ratio |
| Options.ReconstructIff | dist/index.js:130-141 | constructing from a constructed instance returns it unchanged if and only if its `fontSize` is half its `size` or its `size` is 0 |
| Options.ReconstructResetsFontSize | src/index.ts:58 | re-normalising `new AvatarOptions({fontSize: 40})` yields fontSize 250, because `size: 500` has become an own key |
| Svg.RepaintAttribute | src/index.ts:226-231 | an attribute is set to the colour exactly when `getAttribute` returns a non-empty value; a missing or empty attribute stays as it was |
| Svg.RepaintStyle | src/index.ts:232-237 | an inline style property is set to the colour exactly when it is non-empty; an empty one stays empty |
| Svg.RepaintElement | src/index.ts:226-237 | repainting an element never changes its tag or whether it has a style |
| Svg.RepaintTwice | src/index.ts:226-237 | repainting an element with a non-empty colour and then another colour is repainting it with the second colour |
| Svg.RepaintIdempotent | src/index.ts:239-251 | repainting an element twice with the same colour is repainting it once, even with the empty colour |
| Svg.RepaintAfterEmpty | src/index.ts:240-251 | once repainted with the empty colour, an element is left alone by every later colour |
| Svg.FirstWithTag | src/index.ts:225 | `querySelector` returns the index of the first element with that tag, or nothing when none has it |
| Svg.FirstUnstyledPath | src/index.ts:239-240 | the first `path` element without a style, where `paths.forEach` throws, or nothing when every `path` element has one |
| Svg.Recolour | src/index.ts:220-254 | recolouring throws before any change exactly when there is no `svg` element, and runs to the end exactly when that element and every `path` element have a style. Running to the end, it repaints the first `svg` element and every `path` element and leaves the rest. An `svg` element without a style gets only its attributes repainted. A `path` element without a style leaves it and later paths untouched, after the `svg` element and earlier paths were repainted |
| Svg.RecolourSlots | src/index.ts:225-251 | when recolouring runs to the end, each fill/stroke attribute and style slot of a targeted element becomes the colour exactly when it was non-empty; no slot is ever added and no tag changes |
| Svg.LaterSvgUntouched | src/index.ts:225 | an `svg` element after the first one is left exactly as it was, whether recolouring runs to the end or throws part-way |
| Svg.SameShapeSearches | src/index.ts:222-225 | documents that differ only in colour slots have their first `svg` element and their first unstyled `path` element at the same places |
| Svg.RecolourKeepsShape | src/index.ts:220-254 | recolouring, even when it throws part-way, changes colour slots only, so a document that can be recoloured stays so |
| Svg.RecolourIdempotent | src/index.ts:220-254 | for any document with an `svg` element, recolouring twice with the same colour ends as recolouring once, with the same document, including when it throws part-way |
| Svg.RecolourLastWins | dist/index.js:205-236 | for any document with an `svg` element and a non-empty first colour, recolouring with c1 and then c2 ends as recolouring with c2 alone, including when both throw part-way |
| Svg.RecolourAfterEmpty | src/index.ts:226-251 | after recolouring with the empty colour, even when that threw part-way, every later recolouring ends the same way and leaves the document as it is |
| Svg.EmptyColorBreaksLastWins | src/index.ts:226-228 | with the empty first colour the last-wins law fails: the emptied slot is no longer recoloured |
| Svg.ExampleIcon | dist/index.js:205-234 | `<svg xmlns="http://www.w3.org/2000/svg" fill="black"><path stroke="black"/></svg>` recoloured to `#112233` becomes the same markup with `fill="#112233"` and `stroke="#112233"` |
| Svg.ExampleWithoutNamespace | src/index.ts:226-232 | without the SVG namespace the same markup gets `fill="#112233"` on the `svg` element and then throws at its style, leaving the path's `stroke="black"` |
| IconMedia.IsSvgContentType | src/index.ts:185 | the icon counts as SVG exactly when the `content-type` header is present and contains `image/svg+xml` verbatim |
| IconMedia.ContentTypeCaseSensitive | dist/index.js:179 | `image/svg+xml; charset=utf-8` is SVG; `Image/SVG+XML` and a missing header are not |
| IconMedia.New | src/index.ts:179-181 | a new instance holds the URL and colour it was given, with no type, no document and no object URL minted yet |
| IconMedia.UpdateSvgColor | src/index.ts:220-257 | it throws exactly when there is no document or the document cannot be recoloured to the end; a throw keeps the URL and any part-way changes to the document; otherwise it stores the recoloured document and points `url` at a freshly minted object URL of it |
| IconMedia.SetColor | src/index.ts:209-214 | the setter always stores the colour, which the getter then returns; for a non-SVG icon nothing else changes; a throw changes at most the document besides the colour |
| IconMedia.GetterReturnsLastSet | src/index.ts:209-218 | the getter returns the colour of the last setter call, whether that call threw or not |
| IconMedia.OnResponse | dist/index.js:177-179 | the response sets `type` to SVG or image from the header alone and changes nothing else |
| IconMedia.OnText | src/index.ts:186-195 | a non-SVG icon resolves with its URL unchanged; an SVG icon resolves exactly when the parsed document can be recoloured, and then with a fresh object URL of it recoloured to the target colour; otherwise the URL is unchanged and the promise never settles |
| IconMedia.Load | src/index.ts:179-199 | the promise resolves exactly when the fetch responds and the icon is not an SVG or is an SVG that can be recoloured; a rejected fetch leaves the new instance unsettled; the colour is the one given |
| IconMedia.LoadNonSvg | src/index.ts:184-195 | a non-SVG icon resolves to the URL it was created with, whatever its status or body, and is never parsed |
| IconMedia.LoadSvg | dist/index.js:180-186 | an SVG icon that can be recoloured resolves to the first object URL, which holds the parsed document recoloured to the target colour |
| IconMedia.LoadSvgThrows | src/index.ts:186-192 | an SVG icon without an `svg` element, or with a target lacking a style, never settles; it keeps the given URL and the document as far as recolouring got |
| IconMedia.LoadIgnoresStatus | src/index.ts:184-185 | the HTTP status is never consulted |
| IconMedia.StepsKeepConsistent | dist/index.js:176-199 | the setter and the response keep the invariant that an object URL was minted by this instance and holds the current, recolourable document; the body text keeps it from a state whose URL is still the given one |
| IconMedia.SettersBeforeText | src/index.ts:209-214 | setter calls before the body text arrives throw or do nothing: no object URL is minted and the URL stays the given one, so the text always arrives in a state of that kind |
| IconMedia.SettersKeepConsistent | src/index.ts:209-214 | any number of setter calls keep the invariant |
| IconMedia.Lifecycle | src/index.ts:179-214 | construction, the response, setter calls while the body is on its way, the body text and later setter calls keep the invariant |
| IconMedia.LoadConsistent | src/index.ts:179-199 | a constructed icon satisfies that invariant however loading ends |
| IconMedia.SetColorTwice | dist/index.js:194-202 | on a loaded SVG icon, setting c1 (non-empty) and then c2 leaves the document that setting c2 alone leaves, and the URL is the second object URL minted |
| IconMedia.EmptyColorIsPermanent | src/index.ts:209-214 | on any SVG icon, once the empty colour is set, a later colour leaves the document as it is, whether it is missing, lacks an `svg` element, throws part-way or recolours to the end |
| Avatar.Truncate | src/index.ts:49-50 | the IDL conversion rounds a number toward zero |
| Avatar.UnsignedLong | src/index.ts:49-50 | the IDL `unsigned long` conversion: below 2^32 and congruent modulo 2^32 to the size rounded toward zero, so negative and very large sizes wrap; an absent size gives 0, and a size from 0 below 2^32 gives its integer part |
| Avatar.CanvasDimension | src/index.ts:49-50 | the reflected `width`/`height` attribute keeps the converted size only up to 2^31 - 1: an absent size gives 0, a size from 0 below 2^31 its integer part, a size in (-1, 0) gives 0, and sizes from -2^31 to -1 or from 2^31 below 2^32 give the attribute's default |
| Avatar.GenerateAvatar | src/index.ts:34-119 | it throws exactly when the identifier is empty; otherwise it paints two layers, the first always the identifier's colour, on a canvas whose width and height are `options.size` as passed, converted, with defaults 300 and 150, exporting with the completed `export` type |
| Avatar.ModeSelection | src/index.ts:80-118 | the icon plan is chosen if and only if the identifier is non-empty, a truthy icon is set and `forceSync` is off; it paints the icon with the completed foreground as its colour and no text; every other plan paints text |
| Avatar.TextLayer | src/index.ts:66-71 | the text layer shows `letters` (or the identifier's initial by default) in the completed font size, font and foreground |
| Avatar.ForceSyncIgnoresIcon | dist/index.js:102-109 | the URL comes back directly if and only if `forceSync` is set, and then text is painted even when an icon is set |
| Avatar.CanvasSizedBeforeDefaults | src/index.ts:48-58 | options without `size` give a 0 x 0 canvas although the completed size is 500; omitted options give a 500 x 500 canvas |
| Avatar.SquareIffStored | src/index.ts:48-50 | the canvas is square exactly when the converted size is at most 2^31 - 1; otherwise it is 300 x 150 |
| Avatar.NegativeSizeCanvas | src/index.ts:48-50 | `generateAvatar("bob", undefined, {size: -1}, true)` draws on a 300 x 150 canvas |
| Avatar.ReusedOptionsLoseFontSize | src/index.ts:58-67 | an `AvatarOptions` instance built from `{fontSize: 40}` and passed as options draws its text at 250 |
| Avatar.OmittedOptionsAreDefaults | src/index.ts:37 | omitting the options renders with exactly the defaults of `new AvatarOptions()` |
| Avatar.WeightUnused | src/index.ts:66-72 | the `weight` option never influences the result |

## Left out

- Canvas drawing, `Image` loading, `toDataURL`, and the checks for `document` and the 2D context: browser APIs. The plan names what would be painted, not the pixels.
- The icon geometry (the `.7` scale) and the text position (`/ 1.8`): floating-point layout.
- `fetch` and promise scheduling: a response is given as a value, and a rejected fetch as `None`, which never settles.
- A rejection of `response.text()`: also never settles, and is not distinguished from a fetch rejection.
- The image `onerror` rejection in the icon path: image loading is not modelled.
- `DOMParser` and `XMLSerializer`: the parser is a function parameter, and the document is an element sequence with four colour slots and a flag for having a `style` object.
- Attributes and styles other than fill and stroke.
- Svg.RepaintStyle, Svg.RepaintTwice, Svg.RecolourSlots, Svg.RecolourLastWins, IconMedia.SetColorTwice: the colour is taken to be a CSS paint value that the style API stores as given. The real API ignores an assignment it cannot parse, such as `"banana"`, and stores a parsable one in a normalised form, so for such colours the style slots do not hold the colour and last-wins can fail. CSS parsing is not modelled.
- `URL.createObjectURL`: an opaque token that never repeats and carries the document it was made from.
- `Buffer` and `URL` icon sources, `quality` and `exportAsBuffer`: `dist/index.d.ts:42,59-62` declares them, but no code implements them.
- `mock_modules/fs.js`: a stub that only throws.
- Avatar.GenerateAvatar: the default `letters` (the upper-cased first UTF-16 code unit of the identifier, `slice(0, 1)`, a lone high surrogate when the identifier starts outside the Basic Multilingual Plane) is kept symbolic as `Caption.InitialOfIdentifier`, because `toUpperCase` needs Unicode case mapping.
- Avatar.UnsignedLong, Avatar.CanvasDimension: NaN and the infinities, which convert to 0, are not modelled, because numbers are exact reals.
- `console.log` and `console.warn`: output only.
- Options.Construct: numbers are exact reals, so NaN, the infinities and -0 are not modelled; neither is an options key explicitly set to `undefined`, which `Object.assign` would copy.
- Color.StringToColor: the hash is an exact integer, which matches double arithmetic only while it stays below 2^53, that is, for identifiers of up to about four million code units; strings with lone surrogates are not representable.
- The case-insensitive lookup of header names: a response carries its `content-type` value directly.
