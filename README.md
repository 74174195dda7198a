# INKjs scalar helpers and image rollover, in Dafny

This project models two parts of the INKjs JavaScript library.

- **The scalar helpers of `src/ink/utils/math.js`** (module `ScalarMath`):
  - `compare`, `sign` and `fract`;
  - `clamp`, `inRange` and `isIntersect`;
  - `lerp`, `normalize`, `map` and `smoothstep`;
  - `factorial`, and the `radToDeg`/`degToRad` conversions.

  JavaScript numbers are idealised as exact `real`s. `Factorial` keeps the source's `while(num)` loop as a method, and is proved against the recursive function `Fact`.
- **The rollover plugin of `src/plugins/Rollover.js`**:
  - Module `JsString` holds the ECMAScript string built-ins the plugin relies on, with their edge cases:
    - `lastIndexOf` and `indexOf` give -1 when the search string is absent;
    - `substring` clamps its bounds and orders them;
    - `replace` with a string pattern rewrites only the first occurrence, and expands the `$$`, `$&`, `` $` `` and `$'` patterns of its replacement.
  - Module `Rollover` models `_createRolloverData`. It takes the extension `ext` from the last dot. It decides that the image is the "on" image when `src` contains `postfix + ext`. It derives `onSrc` and `offSrc` with a first-occurrence replace.
  - Module `RolloverPlugin` holds a class `Image` whose `src` field the plugin's operations update in place. The operations are `bind`, the mouseenter and mouseleave handlers that `bind` installs, `unbind`, `active` and `passive`.

`OffOnRoundTrip` proves the round trip from an off image to its on name and back. It assumes a non-empty postfix without a dot, and an extension that occurs in `src` only as its suffix. It also assumes the points below, which are sufficient but not all necessary.

- **`src` contains a dot.** This one is needed: `RoundTripNeedsDot` shows that without a dot the trip always fails. For example, `btn` becomes `_onbtn`, and that name is classified as an off image again.
- **The postfix does not start with a character of the extension.** A postfix that does can make the trip fail, though it need not. `RoundTripNeedsFreshPostfix` shows a failure: with postfix `bc`, the on name of `bc.a.ab` is `bc.abc.ab`, and its off name is `.abc.ab`.
- **Neither `src` nor the postfix contains `$`.** A `$` in the postfix or the extension changes what `replace` inserts. A `$` in the stem does not, but it is excluded for simplicity.

## Model

| member | source | states |
|---|---|---|
| ScalarMath.Min | src/ink/utils/math.js:234-236 | `Math.min` of two numbers: the result is one of them and no greater than either |
| ScalarMath.Max | src/ink/utils/math.js:234-236 | `Math.max` of two numbers: the result is one of them and no smaller than either |
| ScalarMath.RadToDeg | src/ink/utils/math.js:129-131 | π radians are 180 degrees |
| ScalarMath.DegToRad | src/ink/utils/math.js:141-143 | 180 degrees are π radians |
| ScalarMath.DegRadRoundTrip | src/ink/utils/math.js:129-143 | converting to degrees and back, or to radians and back, is the identity |
| ScalarMath.Compare | src/ink/utils/math.js:183-191 | the result is 0 exactly when the arguments are equal, -1 exactly when the first is smaller, and 1 exactly when it is larger |
| ScalarMath.CompareAntisymmetric | src/ink/utils/math.js:183-191 | swapping the arguments negates the comparison |
| ScalarMath.Sign | src/ink/utils/math.js:202-210 | the sign is in {-1, 0, 1} and equals the comparison with zero |
| ScalarMath.SignOfProduct | src/ink/utils/math.js:202-210 | the sign of a product is the product of the signs |
| ScalarMath.Fract | src/ink/utils/math.js:220-222 | the fractional part lies in [0, 1), and `num` minus it is a whole number |
| ScalarMath.FractPeriodic | src/ink/utils/math.js:220-222 | adding a whole number leaves the fractional part unchanged |
| ScalarMath.Clamp | src/ink/utils/math.js:234-236 | with `min <= max`, the result lies in [min, max]; it is `num` when `num` is in range, `min` below the range and `max` above it. With `min > max` it is always `min` |
| ScalarMath.ClampIdempotent | src/ink/utils/math.js:234-236 | clamping twice is clamping once |
| ScalarMath.ClampMonotone | src/ink/utils/math.js:234-236 | clamping preserves the order of two values |
| ScalarMath.Factorial | src/ink/utils/math.js:246-253 | the `while(num)` loop ends, and returns the factorial of `num` |
| ScalarMath.InRange | src/ink/utils/math.js:265-267 | true exactly when `val` lies between the two bounds, taken in either order |
| ScalarMath.InRangeOrderFree | src/ink/utils/math.js:265-267 | swapping the bounds does not change the answer |
| ScalarMath.IsIntersect | src/ink/utils/math.js:280-283 | true exactly when the lower end of one range lies in the other range |
| ScalarMath.IsIntersectOrderFree | src/ink/utils/math.js:280-283 | swapping the bounds of either range does not change the answer |
| ScalarMath.IsIntersectSymmetric | src/ink/utils/math.js:280-283 | swapping the two ranges does not change the answer |
| ScalarMath.InRangeIsPointIntersect | src/ink/utils/math.js:265-283 | a value is in a range exactly when the one-point range [val, val] meets it |
| ScalarMath.IsIntersectMeaning | src/ink/utils/math.js:280-283 | two ranges intersect exactly when some value lies in both |
| ScalarMath.Lerp | src/ink/utils/math.js:295-297 | 0 goes to `min` and 1 goes to `max`; a value in [0, 1] goes between `min` and `max` |
| ScalarMath.Normalize | src/ink/utils/math.js:326-328 | `min` goes to 0 and `max` goes to 1; a value between the bounds goes into [0, 1]; with `min < max`, a value at or below `min` goes to at most 0, and one at or above `max` goes to at least 1 |
| ScalarMath.LerpNormalizeInverse | src/ink/utils/math.js:295-328 | with `min != max`, `lerp` and `normalize` are inverse to each other, in both orders |
| ScalarMath.NormalizeReflect | src/ink/utils/math.js:326-328 | reflecting a value about the middle of the range maps its normalised value `t` to `1 - t` |
| ScalarMath.Map | src/ink/utils/math.js:343-345 | `fromMin` goes to `toMin` and `fromMax` goes to `toMax`; a value in the source range goes into the target range |
| ScalarMath.MapInverse | src/ink/utils/math.js:343-345 | mapping from range A to range B and back returns the original value |
| ScalarMath.Smoothstep | src/ink/utils/math.js:310-314 | the result lies in [0, 1]; with `min < max`, it is 0 at or below `min` and 1 at or above `max` |
| ScalarMath.HermiteBounds | src/ink/utils/math.js:313 | the Hermite polynomial `t * t * (3 - 2 * t)` maps [0, 1] into [0, 1] |
| ScalarMath.SmoothstepSymmetric | src/ink/utils/math.js:310-314 | smoothstep at `min + max - val` is one minus smoothstep at `val` |
| JsString.LastIndexFrom | src/plugins/Rollover.js:214-220 | the search backwards from index `k` gives -1 or an occurrence at or before `k` |
| JsString.IndexFrom | src/plugins/Rollover.js:222-228 | the search forwards from index `k` gives -1 or an occurrence at or after `k` |
| JsString.LastIndexOf | src/plugins/Rollover.js:214-220 | the result is -1 or an index where the search string occurs |
| JsString.LastIndexOfIsLast | src/plugins/Rollover.js:214-220 | the result is -1 exactly when the search string does not occur, and no occurrence lies after it |
| JsString.IndexOf | src/plugins/Rollover.js:222-228 | the result is -1 or an index where the search string occurs |
| JsString.IndexOfIsFirst | src/plugins/Rollover.js:222-228 | the result is -1 exactly when the search string does not occur, and no occurrence lies before it |
| JsString.Substring | src/plugins/Rollover.js:214 | in-range bounds give that slice, in either order; a negative start counts as 0, and an end past the string counts as its length |
| JsString.Substitution | src/plugins/Rollover.js:222-228 | a replacement string without `$` is inserted literally |
| JsString.ReplaceAbsent | src/plugins/Rollover.js:222-228 | replacing a pattern that does not occur leaves the string unchanged |
| JsString.ReplaceFirst | src/plugins/Rollover.js:222-228 | a replacement without `$` is spliced in, in place of the first occurrence only |
| JsString.ReplaceAt | src/plugins/Rollover.js:222-228 | `replace` puts the expanded replacement in place of the first occurrence of the pattern, keeping the text before and after it |
| JsString.ReplaceWithDollar | src/plugins/Rollover.js:222-228 | the replacement `$$` puts a single `$` in place of the first occurrence |
| JsString.ReplaceWithBefore | src/plugins/Rollover.js:222-228 | the replacement `` $` `` puts the text before the first occurrence in its place |
| JsString.ReplaceWithAfter | src/plugins/Rollover.js:222-228 | the replacement `$'` puts the text after the first occurrence in its place |
| JsString.ReplaceWithMatch | src/plugins/Rollover.js:222-228 | the replacement `$&` re-inserts the match, so the string is unchanged |
| JsString.OccursAtChar | src/plugins/Rollover.js:214 | a one-character string occurs exactly where that character stands |
| Rollover.Ext | src/plugins/Rollover.js:214 | the extension is no longer than `src` |
| Rollover.ExtIsSubstring | src/plugins/Rollover.js:214 | the extension is `src.substring(src.lastIndexOf("."), src.length)` |
| Rollover.ExtIsSuffix | src/plugins/Rollover.js:214 | the extension is a suffix of `src` |
| Rollover.ExtWithoutDot | src/plugins/Rollover.js:214 | for a `src` without a dot, the extension is the whole `src` |
| Rollover.ExtAtLastDot | src/plugins/Rollover.js:214 | for a `src` with a dot, the extension starts with the last dot, and contains no other dot |
| Rollover.ExtOfSplit | src/plugins/Rollover.js:214 | the extension of `a + b` is `b` when `b` starts with its only dot |
| Rollover.CreateRolloverData | src/plugins/Rollover.js:211-241 | `src` is the on name or the off name; it is the on name when the image is not off; the image is off exactly when `src` is its off name |
| Rollover.OnImageNames | src/plugins/Rollover.js:220-222 | without `$`: for an on image, the off name drops the postfix from the first occurrence of `postfix + ext` |
| Rollover.OffImageNames | src/plugins/Rollover.js:226-228 | without `$`: for an off image, the on name inserts the postfix before the first occurrence of `ext` |
| Rollover.IsOffImgIffNoOnName | src/plugins/Rollover.js:220-239 | without `$` in `src` and postfix, and with a non-empty postfix, the image is off exactly when `src` contains no `postfix + ext` |
| Rollover.OffOnRoundTrip | src/plugins/Rollover.js:211-241 | for a plain off name (see `PlainOffName`): the on name is stem + postfix + extension, and deriving from it classifies it as on and gives back the original name as its off name |
| Rollover.PlainOnName | src/plugins/Rollover.js:226-228 | the on name of a plain off name is stem + postfix + extension |
| Rollover.OnNameBack | src/plugins/Rollover.js:220-222 | from the on name `pre + postfix + e`, the derivation classifies the image as on and returns `pre + e` |
| Rollover.NoEarlierOnName | src/plugins/Rollover.js:220-222 | in `pre + postfix + e`, no occurrence of `postfix + e` starts inside `pre` |
| Rollover.DotlessName | src/plugins/Rollover.js:214-228 | without `$` in `src` and postfix: a `src` without a dot is an off image, and its on name puts the postfix in front of the whole `src` |
| Rollover.RoundTripNeedsDot | src/plugins/Rollover.js:211-241 | without a dot the round trip fails: the on name `postfix + src` is again an off image, and its off name is not `src` |
| Rollover.RoundTripNeedsFreshPostfix | src/plugins/Rollover.js:211-241 | `bc.a.ab` with postfix `bc` has its extension only as its suffix, yet the off name of its on name `bc.abc.ab` is `.abc.ab` |
| RolloverPlugin.Image.Bind | src/plugins/Rollover.js:83-103 | an on image is reset to its off name, and the hover handlers capture the data derived from the `src` at bind time |
| RolloverPlugin.Image.MouseEnter | src/plugins/Rollover.js:93-97 | with handlers bound and no no-rollover class, `src` becomes the captured on name; otherwise it is unchanged |
| RolloverPlugin.Image.MouseLeave | src/plugins/Rollover.js:98-102 | with handlers bound and no no-rollover class, `src` becomes the captured off name; otherwise it is unchanged |
| RolloverPlugin.Image.Unbind | src/plugins/Rollover.js:125-129 | the hover handlers are removed and `src` is unchanged |
| RolloverPlugin.Image.Active | src/plugins/Rollover.js:151-163 | the image is marked active, its handlers are removed, and `src` becomes the on name derived from its current `src` |
| RolloverPlugin.Image.Passive | src/plugins/Rollover.js:185-197 | the active mark is cleared, the handlers are removed, and `src` becomes the off name derived from its current `src` |
| RolloverPlugin.HoverCycle | src/plugins/Rollover.js:83-103 | after `bind`, entering shows the on name (the off name when muted), and leaving shows the off name |
| RolloverPlugin.ActiveThenPassive | src/plugins/Rollover.js:151-197 | `active` shows the on name; `passive` then shows the off name of that on name, which is the original `src` for a plain off name |

## Left out

- The pendulum class (`src/ink/class_algorithm/period/_Pendulum.js`) is not part of this model. Its behaviour is floating-point trigonometric integration, and as written it does not parse.
- `radToCoord`, `degToCoord`, `coordToRad`, `coordToDeg` and `diagonal` are not modelled: they need `Math.sin`, `Math.cos`, `Math.atan2` or `Math.sqrt`, which have no exact counterpart over `real`.
- `roundToDigit` is not modelled, because it depends on floating-point rounding.
- `diagonalToSideLength` is not modelled, because it refers to an undefined `utils`.
- `random` and `randomInt` are not modelled: they depend on `Math.random` and on dispatch on `arguments.length`.
- IEEE-754 effects are not modelled: NaN, the infinities, -0 and rounding.
- `PI` is written as the exact decimal 3.141592653589793 rather than the double value of `Math.PI`.
- ScalarMath.Normalize, ScalarMath.Map and ScalarMath.Smoothstep require a non-degenerate range (`min != max`). In JavaScript an empty range divides by zero and produces Infinity or NaN.
- ScalarMath.Factorial takes a `nat`. In JavaScript, `while(num)` never ends for a negative or fractional `num`.
- Strings are sequences of `char`, not of UTF-16 code units; the plugin only compares and slices them.
- Rollover.Ext is written as the suffix from the last dot. `ExtIsSubstring` proves that it equals the source's `substring(lastIndexOf("."), length)` call.
- jQuery selection is not modelled. Nor is the `instanceof jQuery` argument shuffling, the `$.extend` option merging or the `Events` base class; the postfix is passed to each operation directly.
- Images are modelled one at a time, since `$images.each` applies the same step to each image independently.
- Group triggers are not modelled: `closest(groupClass)` and `$trigger` choose the element that carries the handlers, and the model attaches them to the image itself.
- `_createRolloverData` also adds the active class to the image's group (line 215). Groups are not modelled, so the model leaves this out; the model's `active` flag only tracks the class that `active` and `passive` set on the image.
- `preload` is left out, because it only starts a network load of the other image.
- Event namespacing with the plugin's id is left out. So is the stacking of handlers when `bind` runs twice: the model keeps only the latest bound data.
- The no-rollover class is the boolean `noOver` rather than a DOM class. The handlers read it when they run, as `hasClass` does.
- Rollover.IsOffImgIffNoOnName requires that neither `src` nor the postfix contains `$`. Otherwise a replacement such as `` $` `` can turn the off name back into `src`: the `src` ``.$`..$` `` with postfix `.` contains `postfix + ext` at index 3, yet counts as an off image.
- Rollover.DotlessName requires `$`-free names, because `replace` expands `$` patterns in the postfixed extension: `a$&` with postfix `_` gets the on name `_aa$&`.
- Rollover.OnImageNames and Rollover.OffImageNames state the names only where `src` and the postfix contain no `$`. Otherwise `replace` expands `$` patterns, which `JsString.Substitution` does model.
- Rollover.OffOnRoundTrip is proved under sufficient assumptions, not under the weakest ones. It needs a dot in `src`, as `RoundTripNeedsDot` shows. A postfix that starts with a character of the extension can break the trip (`RoundTripNeedsFreshPostfix`), but does not always. A `$` is harmful only in the postfix or the extension; a `$` in the stem is excluded for simplicity.
