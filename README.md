# tailwindcss-color-scale, modelled in Dafny

The plugin extends Tailwind's eleven-stop colour scale (50, 100, 200, ..., 900,
950) to every integer from 0 to 1000. A utility value such as `red-123` that the
palette does not define is answered with a CSS expression: a plain reference
to a stop (`var(--color-red-500)`), or an oklch `color-mix()` of two
neighbouring stops, of stop 50 with white, or of black with stop 950.

The model has five modules, one per concern of the source:

- `Decimal` (decimal.dfy): digit strings, `parseInt(_, 10)` on them, and the
  decimal text a template string prints for a non-negative integer, with both
  round trips.
- `ColorMix` (color_mix.dfy): `DEFAULT_SCALE` and `generateColorMix` of
  src/index.ts. It returns an `Expr` value, and `Render` prints it as the
  source's template strings. The lemmas cover each branch, the bracketing
  stops, the weight range, injectivity through an inverse `ScaleOf`, and
  monotonicity within a bracket.
- `BareValue` (bare_value.dfy): the token grammar `^(.+)-(\d+)$`,
  `extractColorName`, the two key sets the plugin builds once from the
  flattened palette, and the `__BARE_VALUE__` callback (`Resolve`). The lemmas
  state which tokens are accepted and give each of the five rejection reasons.
- `Palette` (palette.dfy): `flattenColorPalette` of
  src/utils/flattenColorPalette.ts. This is an imperative method over a
  `map<string, string>` record, proved equal to the function `Flat`. The
  lemmas about `Flat` cover last-write-wins, DEFAULT qualification, the
  reserved `__CSS_VALUES__` key at every level, the flag post-pass, the empty
  palette, and the leaf bounds.
- `Wrappers` (wrappers.dfy): an `Option` type for JavaScript's `undefined`.

Below 50 the model follows the code, not a looser reading of the rule. That
reading gives white a weight of `2 * scale` percent. The code
(src/index.ts:25) puts that weight on stop 50, and white gets the rest.
`ColorMix.BelowFirstStop` states the code's version.

A palette is a `Palette.Node`. A `Leaf` is a colour string. A `Branch` is an
object, with its entries in `Object.entries` order. A `Flags` node is the
object stored under `__CSS_VALUES__`, mapping keys to numeric `ThemeOptions`
flags. The bit test `(Number(v) & ThemeOptions.DEFAULT) !== 0` is stated as
`(v / 4) % 2 == 1` on integers. `Palette.HasDefaultFlagIsMask` proves this is
the same as masking the 32-bit two's complement word.

## Model

| member | source | states |
|---|---|---|
| ColorMix.FirstAtLeast | src/index.ts:36 | `findIndex(s => s >= x)`: -1 exactly when every element is below x, otherwise the least index whose element is at least x |
| ColorMix.GenerateColorMix | src/index.ts:22-62 | the result always names the requested colour family |
| ColorMix.DefaultScaleAscending | src/index.ts:4 | DEFAULT_SCALE has eleven strictly ascending stops from 50 to 950 |
| ColorMix.GapSize | src/index.ts:4 | adjacent stops are 50 or 100 apart, and 50 apart only in 50..100 and 900..950 |
| ColorMix.SearchFallbacksUnreachable | src/index.ts:36-41 | for 50 <= scale <= 950 the search never returns -1, and it returns 0 only at scale 50, so the `upperIndex === -1` fall-back and the `upperIndex === 0` branch of `lower` are dead |
| ColorMix.StopBracket | src/index.ts:36-50 | every scale in 50..950 that is not a stop lies strictly between the stops at upperIndex - 1 and upperIndex |
| ColorMix.BelowFirstStop | src/index.ts:23-26 | scale < 50 gives stop 50 weighted 2 * scale percent against white, printed as the source's template |
| ColorMix.AboveLastStop | src/index.ts:28-32 | scale > 950 gives black weighted 2 * (scale - 950) percent against stop 950, printed as the source's template |
| ColorMix.AtStop | src/index.ts:45-48 | a scale equal to a stop gives `var(--color-C-S)` for that stop and no mix |
| ColorMix.DirectIffStop | src/index.ts:36-48 | the result is a direct stop reference exactly when the scale is one of the eleven stops |
| ColorMix.BetweenStops | src/index.ts:50-61 | strictly between adjacent stops: a mix of the upper and lower stop, with weight * (upper - lower) == (scale - lower) * 100 and 0 < weight < 100; on 50..100 the weight is 2 * (scale - 50) |
| ColorMix.WeightInRange | src/index.ts:22-62 | for every scale up to 1000, every emitted percentage lies in 0..100 |
| ColorMix.ScaleOfGenerate | src/index.ts:22-62 | the expression determines the scale: ScaleOf inverts GenerateColorMix on every scale |
| ColorMix.GenerateColorMixInjective | src/index.ts:22-62 | two requests that give the same expression have the same colour and the same scale |
| ColorMix.WeightMonotone | src/index.ts:53-59 | between the same two stops, a larger scale puts strictly more weight on the upper stop |
| Decimal.DigitValue | src/index.ts:186 | a digit's value is below 10 |
| Decimal.DigitChar | src/index.ts:25 | the printed digit is a digit and has the given value |
| Decimal.ToDecimal | src/index.ts:25 | the printed number is a canonical digit string, starting with '0' exactly when the number is 0 |
| Decimal.ValueOfToDecimal | src/index.ts:186 | parseInt of the printed number gives the number back |
| Decimal.ToDecimalOfValue | src/index.ts:181-186 | printing the parsed value of a canonical digit group gives the group back |
| Decimal.PositiveValue | src/index.ts:181 | a digit group that starts with a non-zero digit has a positive value |
| Decimal.CanonicalUnique | src/index.ts:181-186 | two canonical digit groups with the same value are equal |
| BareValue.LastHyphen | src/index.ts:175 | the index of the last '-' of the string, or -1 when there is none |
| BareValue.SplitToken | src/index.ts:175-178 | a successful split gives back `name-digits`, with a non-empty name free of line terminators and a non-empty all-digit group |
| BareValue.SplitTokenComplete | src/index.ts:175 | every valid name and digit group joined by '-' is split back into exactly that name and group |
| BareValue.SplitTokenMatchesGrammar | src/index.ts:175-178 | the split succeeds exactly on the strings the regular expression matches |
| BareValue.ExtractColorName | src/index.ts:12-15 | the key comes back unchanged exactly when it has no `-<digits>` suffix; otherwise the result is the key with that suffix removed |
| BareValue.ExtractColorNameOfStop | src/index.ts:12-15 | a stop key `name-digits` gives its family name |
| BareValue.ExtractColorNameExamples | src/index.ts:12-15 | `red` gives `red`, `red-500` gives `red`, `light-blue-50` gives `light-blue` |
| BareValue.DeriveKeySets | src/index.ts:65-70 | the defined set is the flattened palette's key set; the known set holds exactly the extracted names of those keys |
| BareValue.KnownFamilyInPalette | src/index.ts:65-70 | every known family is a palette key itself or the prefix of a `-<digits>` palette key |
| BareValue.StopKeyMakesFamilyKnown | src/index.ts:68-70 | a palette key `name-digits` makes `name` a known family |
| BareValue.Resolve | src/index.ts:173-204 | a token that is already a palette key is never synthesised; an accepted token always names a known family |
| BareValue.ResolveSound | src/index.ts:173-204 | an accepted token is `name-` plus the canonical decimal of a scale in 0..1000, it is not a defined key, its family is known, and its value is GenerateColorMix(name, scale) |
| BareValue.ResolveComplete | src/index.ts:173-204 | every such token (known family, scale in 0..1000, not a defined key) is accepted with GenerateColorMix(name, scale) |
| BareValue.ResolveRejectsMalformed | src/index.ts:175-178 | a token the grammar does not match is rejected |
| BareValue.ResolveRejectsLeadingZero | src/index.ts:180-183 | a digit group of two or more digits starting with '0' is rejected |
| BareValue.ResolveRejectsUnknownColor | src/index.ts:193-196 | a family outside the known set is rejected |
| BareValue.ResolveRejectsOutOfRange | src/index.ts:198-201 | a scale above 1000 is rejected |
| BareValue.ResolveAgainstPalette | src/index.ts:65-70 | for a family with some stop key in the flattened palette, each scale in 0..1000 resolves to GenerateColorMix unless the palette defines the token itself, which is then left alone |
| BareValue.RejectionExamples | src/index.ts:173-204 | `red-011`, `bogus-500`, `red-1001` and the defined `red-50` are rejected on a palette with red-50 and red-500 |
| BareValue.ResolvesRed0 | src/index.ts:24-25 | `red-0` gives stop 50 at 0% against white |
| BareValue.ResolvesRed25 | src/index.ts:24-25 | `red-25` gives stop 50 at 50% against white |
| BareValue.ResolvesRed75 | src/index.ts:56-59 | `red-75` gives stop 100 at 50% against stop 50 (the doubling rule) |
| BareValue.ResolvesRed123 | src/index.ts:50-61 | `red-123` gives stop 200 at 23% against stop 100 |
| BareValue.ResolvesRed975 | src/index.ts:29-31 | `red-975` gives black at 50% against stop 950 |
| BareValue.AcceptedExample | src/index.ts:173-204 | on the example palette, every undefined `red-<scale>` up to 1000 resolves to GenerateColorMix("red", scale) |
| Palette.MaskLowBits | src/utils/flattenColorPalette.ts:31 | on an unsigned 32-bit word, `& 4` is non-zero exactly when the word divided by 4 is odd |
| Palette.HasDefaultFlagIsMask | src/utils/flattenColorPalette.ts:5 | for every flag in the signed 32-bit range, HasDefaultFlag agrees with `& ThemeOptions.DEFAULT` on its two's complement word |
| Palette.WordBitTwo | src/utils/flattenColorPalette.ts:31 | reducing a signed 32-bit value modulo 2^32 keeps bit 2 of its floor quotient |
| Palette.QualifiedKeyInjective | src/utils/flattenColorPalette.ts:22 | under one root, distinct child keys get distinct qualified keys |
| Palette.Prefixed | src/utils/flattenColorPalette.ts:21-23 | each child key p is written as the qualified key with p's value, and nothing else is written |
| Palette.Lookup | src/utils/flattenColorPalette.ts:32 | `colors[key]` is absent exactly when no entry has that key, and a found value belongs to an entry with that key |
| Palette.LeafAt | src/utils/flattenColorPalette.ts:32 | `colors[key] as string` is defined exactly when the key's entry holds a string, and it is that string |
| Palette.FlattenColorPalette | src/utils/flattenColorPalette.ts:15-38 | the method's record equals Flat(colors): the structural loop over the entries, then the `__CSS_VALUES__` post-pass |
| Palette.WritePrefixed | src/utils/flattenColorPalette.ts:21-23 | the inner loop leaves the record overwritten by the child's record with every key qualified by the root |
| Palette.ApplyCssValues | src/utils/flattenColorPalette.ts:29-35 | the flag loop leaves the record equal to the post-pass over the whole flag table |
| Palette.StructuralKeys | src/utils/flattenColorPalette.ts:18-27 | after the first i entries, a key is present exactly when one of those entries wrote it |
| Palette.LastWriteWins | src/utils/flattenColorPalette.ts:18-27 | a key holds the value its last writer wrote: later entries overwrite earlier ones |
| Palette.LeafEntryKept | src/utils/flattenColorPalette.ts:24-26 | a string entry (k, v) with no later writer of k leaves `result[k] = v` |
| Palette.BranchEntryWrites | src/utils/flattenColorPalette.ts:20-23 | under an ordinary root, the child's DEFAULT goes to `root`, every other child key p goes to `root-p`, and nothing else is written |
| Palette.ReservedNotQualified | src/utils/flattenColorPalette.ts:19-22 | no qualified key under an ordinary root is `__CSS_VALUES__` |
| Palette.ReservedNotWritten | src/utils/flattenColorPalette.ts:19 | the structural loop never writes the key `__CSS_VALUES__` |
| Palette.ReservedNeverEmitted | src/utils/flattenColorPalette.ts:15-38 | `__CSS_VALUES__` is absent from every flattened palette, and a nested one never shows up in its parent as `root-__CSS_VALUES__` |
| Palette.PostPassNotReserved | src/utils/flattenColorPalette.ts:29-35 | the post-pass never adds `__CSS_VALUES__` |
| Palette.ReservedContentIgnored | src/utils/flattenColorPalette.ts:19 | replacing what the reserved entry holds does not change what the structural loop writes |
| Palette.PostPassEffect | src/utils/flattenColorPalette.ts:29-35 | a key listed with the DEFAULT bit clear and naming a string entry gets that string; every other key keeps its earlier presence and value |
| Palette.FlagTableNamesLeaves | src/utils/flattenColorPalette.ts:29-32 | in a well-formed palette every key the flag table lists names a string entry |
| Palette.FlatEffect | src/utils/flattenColorPalette.ts:15-38 | a key listed without the DEFAULT bit holds the palette's own string after all structural writes; every other key is what the structural loop left; without a flag table the result is the structural loop's |
| Palette.EmptyPalette | src/utils/flattenColorPalette.ts:16-18 | an empty palette flattens to an empty record |
| Palette.PrefixedValues | src/utils/flattenColorPalette.ts:21-23 | qualifying keys introduces no new value |
| Palette.PrefixedSize | src/utils/flattenColorPalette.ts:21-23 | qualifying keys gives no more keys than the child has |
| Palette.StructuralBounded | src/utils/flattenColorPalette.ts:18-27 | with no `__CSS_VALUES__` anywhere, after i entries every value is a string leaf of those entries and the key count is at most their leaf count |
| Palette.WritesBounded | src/utils/flattenColorPalette.ts:20-26 | one entry writes only its own leaves, and no more keys than it has leaves |
| Palette.FlatBounded | src/utils/flattenColorPalette.ts:29 | with no `__CSS_VALUES__` key the post-pass does nothing |
| Palette.NoReservedBounds | src/utils/flattenColorPalette.ts:15-38 | with no `__CSS_VALUES__` anywhere, every result value is a string leaf of the tree and there are no more keys than leaves |

## Left out

- Plugin registration and the `matchUtilities` property tables (src/index.ts:64, 72-170): host-framework plumbing and fixed string tables with no logic.
- `theme("color")` and Tailwind's `__BARE_VALUE__` dispatch: these are calls into the host. `BareValue.DeriveKeySets` takes the flattened palette as a parameter, and `BareValue.Resolve` takes the derived key sets.
- ColorMix.GenerateColorMix: the percentage is exact integer arithmetic. The source computes `(offset / range) * 100` in IEEE doubles. That can print as `7.000000000000001` (for `red-107`), which the model does not reproduce.
- ColorMix.GenerateColorMix: the scale is a `nat`. The resolver never passes a negative scale, because a `\d+` group cannot be negative.
- BareValue.Resolve: the `scale < 0` half of the range check (src/index.ts:199) is vacuous on a `nat` scale and is not stated.
- BareValue.Resolve: `!match[1] || !match[2]` (src/index.ts:176) cannot fail once the grammar matches, so it has no separate branch.
- RegExp and `parseInt` are not modelled as engines. The match is an explicit split at the last hyphen, which `BareValue.SplitTokenMatchesGrammar` proves equal to the grammar. `parseInt` is `Decimal.Value` on a digit string.
- The rules by which `Object.entries` orders keys (integer-like keys first): the model takes the entry order as given.
- Palette.WritePrefixed: it visits the child's keys in an arbitrary order, not `Object.entries` order. The result is the same either way, because distinct child keys get distinct qualified keys (`Palette.QualifiedKeyInjective`).
- The `colors ?? {}` null path and null children (src/utils/flattenColorPalette.ts:18-20): the model's palette is always an object whose values are strings or objects.
- Palette.FlattenColorPalette: it requires `WellFormed`. Object keys are unique. A flag table appears only under `__CSS_VALUES__`, which always holds one. Each key the table lists names a string entry of the same object. The source's behaviour when a listed key is missing or holds an object (`undefined`, or an object cast to string) is not modelled.
- The other `ThemeOptions` flags (src/utils/flattenColorPalette.ts:2-8): the code never reads them.
- Palette.HasDefaultFlagIsMask: covers flags in the signed 32-bit range. `Number(value)` of a non-integer or a value outside that range is not modelled.
- The colour mathematics of CSS `color-mix()`: the browser evaluates the emitted text, and this code only builds it.
- ColorMix.WeightMonotone: monotonicity is stated only between a pair of adjacent stops. Across stops the weight restarts, so the percentage alone is not monotone.
- BareValue.ResolvesRed0: the examples state the generated `Expr` values. They do not state the full rendered strings. `ColorMix.Render` ties each expression to the source's template.
