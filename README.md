# contenttype: a Dafny model

This project models the `MediaType` object of the `contenttype` package, a small JavaScript
library that parses, prints and compares HTTP media types (`text/html;level=1;q=0.5`) and
picks a representation for an `Accept` header. The repository has two variants of the core,
and both are modelled.

- `content-type.js` (modules `ContentType` and `ContentTypeNegotiation`):
  - the `MediaType` constructor, `parseParameter` and `toString`;
  - the quote-aware `splitQuotedString`, `splitContentTypes` and `parseMedia`;
  - the two in-place sorts `sortByQuality` and `sortBySpecificity`;
  - `mediaCmp`, `firstMatch` and `select`.
- `contenttype.js` (modules `ContentTypeAlt` and `ContentTypeAltNegotiation`):
  - the same object, with these differences:
    - `parseQ` rounds the quality to three decimals and caps it at 1;
    - `parseParameter` stops adding parameters once `q` is an own property;
    - `toString` writes `;name=value` and `; q=`;
    - `parseMedia` defaults `q` to 1;
  - its own `mediaCmp`, which never compares values;
  - its `select`, a nested loop that keeps the pair with the largest product of qualities.

Shared modules:
- `Text`: trimming, `indexOf`, the token pattern, escaping and unquoting, and ordered keys.
- `Decimal`: `parseFloat` on decimal literals, and `toFixed(3)` with trailing zeros removed.
- `Splitter`: `splitQuotedString`, which is identical in both files.
- `Header`: the `name=value` fields that `toString` writes.
- `Wrappers`: `Option`.

Each object method is a method of a Dafny class. The class holds the fields the source
updates: `type` (named `fullType`, since `type` is a Dafny keyword), `params` and `q`. Each
method is proved equal to a function on media-type values (`MT`). The properties are lemmas
about those functions:
- parsing applies the fields in order;
- a printed media type parses back when it is canonical: a non-empty type with no surrounding whitespace and no `;` or `"`, parameter names that are tokens other than `q`, no value ending in a backslash, and a quality that is absent or a multiple of 0.001 in [0, 1]. `## Left out` lists what the source produces outside these conditions;
- the splitter keeps quoted delimiters;
- the sorts return sorted permutations;
- the two `select` functions return what their loops promise.

JavaScript's `undefined` and `NaN` quality values are datatype constructors. A `NaN` is
absorbing, and a comparison with it is false.

## Model

| member | source | states |
|---|---|---|
| Text.SkipSpace | content-type.js:42-44 | the index `trim` stops at from the left: no later character before it is skipped unless it is whitespace, and the one it stops on is not |
| Text.BackSpace | content-type.js:42-44 | the index `trim` stops at from the right, with the character before it not whitespace |
| Text.Trim | content-type.js:42-44 | the result has no whitespace at either end and is no longer than the input |
| Text.TrimSlice | content-type.js:42-44 | `trim` removes only whitespace: the result is a slice of the input with nothing but whitespace on either side |
| Text.TrimIdentity | content-type.js:42-44 | trimming a string that has no surrounding whitespace leaves it unchanged |
| Text.TrimPadded | content-type.js:42-44 | trimming whitespace-padded text gives back exactly the text |
| Text.IndexOf | content-type.js:102 | `indexOf(c, from)`: the first position at or after `from` holding `c`, or none when there is no such position |
| Text.Escape | content-type.js:77-79 | backslash-escaping never shortens a string |
| Text.Unquote | content-type.js:56-60 | a value not wrapped in double quotes is left as it is |
| Text.RenderValue | content-type.js:74-80 | a token is written bare; anything else is written between double quotes |
| Text.UnescapeEscape | content-type.js:57-59 | removing the backslashes undoes `toString`'s escaping, for every string |
| Text.UnquoteRenderValue | content-type.js:56-60 | reading a value back from how `toString` writes it gives the original value, for every string |
| Text.EscapedQuotes | content-type.js:77-79 | every double quote in an escaped value is preceded by a backslash |
| Text.EscapeLast | content-type.js:77-79 | a value not ending in a backslash does not end in one after escaping |
| Text.LexLeTotal | content-type.js:69 | the key order of `sort()` relates every two strings |
| Text.LexLeAntisymmetric | content-type.js:69 | two strings each ordered before the other are equal |
| Text.LexLeTransitive | content-type.js:69 | the key order is transitive |
| Text.SortedKeys | content-type.js:69 | `Object.keys(params).sort()`: exactly the keys, each once, in strictly increasing order |
| Decimal.DigitsEnd | content-type.js:54 | the end of the run of digits `parseFloat` reads: every position before it is a digit, and the one after it is not |
| Decimal.RoundThousandths | content-type.js:83 | `toFixed(3)` picks the integer nearest to 1000·x, rounding halves up |
| Decimal.RoundTo3Properties | contenttype.js:80 | rounding to three decimals gives a multiple of 0.001 within 0.0005 of x; it keeps the sign and does not exceed 1 |
| Decimal.RoundTo3Exact | contenttype.js:80 | a multiple of 0.001 is unchanged by rounding |
| Decimal.Fixed3Frac | content-type.js:83 | the three digits `toFixed(3)` writes after the point stand for the fractional part |
| Decimal.TrimmedFixed3 | content-type.js:83 | removing trailing zeros and then a trailing point leaves a prefix of the fixed text that ends in a digit |
| Decimal.ParseFixed3 | content-type.js:83 | the trimmed `toFixed(3)` text of n/1000 reads back as n/1000 |
| Decimal.FormatQRoundTrip | content-type.js:83-84 | a quality in [0, 1] with at most three decimals is written so that `parseFloat` reads back exactly that quality |
| Decimal.FormatQDigits | content-type.js:83 | the written quality is made of digits and a point, and starts and ends with a digit |
| Splitter.NextStopIndexOf | content-type.js:101-108 | the `reduce` over `[delim, quote]` finds the earlier of the two `indexOf` results, which is the next stop position |
| Splitter.CloseQuoteIndexOf | content-type.js:117-129 | repeating `indexOf(quote)` while the quote follows a backslash finds the first unescaped closing quote, or none |
| Splitter.SkipQuoted | content-type.js:115-131 | the skip loop ends on the first unescaped closing quote, or at -1 when there is none |
| Splitter.SplitQuotedString | content-type.js:92-144 | the `start`/`offset` loop returns exactly the trimmed pieces of `Split` |
| Splitter.SplitContentTypes | content-type.js:148-150 | an `Accept` header is split on `,` with the same quote handling |
| Splitter.SplitFields | content-type.js:92-144 | fields joined by the delimiter, whose quoted spans may hold delimiters and escaped quotes, come back as those fields, trimmed; this holds even when the last quote is never closed |
| Splitter.SplitNoDelimiter | content-type.js:107-112 | a string without a delimiter after its first character is one trimmed piece |
| Splitter.SplitDoubleDelimiter | content-type.js:102-108 | the search restarts one past the offset, so `a;;b` splits into `a` and `;b` |
| Splitter.SplitLeadingQuote | content-type.js:102-108 | a quote at the first position is never seen, so `"a;b"` splits at its `;` |
| Header.ParamFields | contenttype.js:110-118 | one `name=value` field per key, in key order, with each value written bare or quoted |
| Header.SplitSerialized | contenttype.js:107-124 | splitting a written type, its fields and any extra fields on `;` gives back the type and each field |
| Header.SplitPlain | content-type.js:8-15 | splitting a type followed by `;`-joined plain fields gives back the type and the trimmed fields |
| Header.MainType | content-type.js:176-179 | `type.split("/")[0]`: the whole type when it has no `/`, and otherwise the prefix that stops right before its first `/` |
| ContentType.NamePart | content-type.js:40-42 | `split("=", 1)[0]`: the whole field, or the prefix before its first `=`, with no `=` in it |
| ContentType.Assign | content-type.js:46-63 | assigning a name and value never changes the type |
| ContentType.ParseParam | content-type.js:39-64 | `parseParameter` never changes the type |
| ContentType.ApplyFields | content-type.js:13-15 | applying fields in turn never changes the type |
| ContentType.MediaType.constructor | content-type.js:4-37 | the new object equals `Construct` of its two arguments |
| ContentType.MediaType.ParseAll | content-type.js:13-15 | each field is applied in order, as `ApplyFields` states |
| ContentType.MediaType.AssignAll | content-type.js:32-36 | copying an object's entries overrides the parameters with the same names and keeps the rest |
| ContentType.MediaType.ParseParameter | content-type.js:39-64 | the object's new state is `ParseParam` of its old state |
| ContentType.MediaType.ToString | content-type.js:66-88 | the loop writes `Serialize` of the object's state |
| ContentType.AppendValues | content-type.js:71-81 | appends each key's value, written bare or quoted, in key order |
| ContentType.NameAndValue | content-type.js:40-44 | the trimmed text before and after the first `=` |
| ContentType.ParseMedia | content-type.js:152-154 | a fresh object built from the string alone |
| ContentType.NamePartAt | content-type.js:40-44 | a field `name=value` whose name has no `=` splits into exactly that name and value, even when the value contains `=` |
| ContentType.ParseParamFirstEquals | content-type.js:39-62 | parsing `name=value` assigns the trimmed name and the trimmed value |
| ContentType.ParseParamNoEquals | content-type.js:44-48 | a field without `=` changes nothing |
| ContentType.ParseParamBlank | content-type.js:46-48 | a field with an empty name or an empty value changes nothing |
| ContentType.AssignFrame | content-type.js:53-63 | `q` changes only the quality; another name changes only that parameter and leaves the others and `q` alone |
| ContentType.ParseParamLaterWins | content-type.js:53-62 | a later field with the same name overrides an earlier one |
| ContentType.AssignTwice | content-type.js:62 | the second non-empty assignment to a name wins |
| ContentType.ApplyFieldsAppend | content-type.js:13-15 | applying `a + b` is applying `a` and then `b` |
| ContentType.ConstructParamString | content-type.js:8-31 | a string second argument is parsed after the fields of the first, as one list of fields |
| ContentType.ConstructCopyObject | content-type.js:16-36 | copying a media type keeps its type and `q`; the override object adds its keys and wins on shared keys |
| ContentType.ParseQExample | test/index.js:7-11 | `parseParameter('q=0.5')` on a blank object sets `q` to the number 0.5 |
| ContentType.LevelExample | content-type.js:62 | `level=1` sets the parameter `level` to `1` |
| ContentType.QExample | content-type.js:53-54 | `q=0.5` sets `q` to 0.5 |
| ContentType.ExampleFields | content-type.js:13-15 | the fields `level=1` and `q=0.5` give `level` 1 and `q` 0.5 |
| ContentType.ConstructPlain | content-type.js:8-15 | a type followed by plain `;` fields is read as that type with those trimmed fields applied |
| ContentType.ParseExample | test/index.js:13-18 | `text/html;level=1;q=0.5` reads as type `text/html`, params `{level: "1"}`, q 0.5 |
| ContentType.ParseExampleSpaces | test/index.js:20-25 | the same with spaces after each `;` |
| ContentType.SerializeOneToken | content-type.js:71-81 | a single token parameter is written as the bare value right after the type |
| ContentType.ParseNoParameters | content-type.js:8-15 | a trimmed string without `;` reads as a type with no parameters |
| ContentType.SerializeDropsNames | content-type.js:71-81 | `toString` writes `text/html1` for both `level=1` and `charset=1`, and `text/html1` reads back as a different type with no parameters |
| ContentType.ParseParamField | content-type.js:39-64 | parsing a `name=value` field written for a token name other than `q` sets exactly that parameter |
| ContentType.ApplyParamFields | content-type.js:13-15 | applying the written fields of some keys yields exactly those parameters |
| ContentType.ParseQField | content-type.js:53-85 | the written quality field reads back as the same quality |
| ContentType.ParseQText | content-type.js:53-54 | `q=` followed by a number text sets `q` to the number `parseFloat` reads |
| ContentType.SerializeNamedText | content-type.js:66-88 | the corrected `toString` is the type followed by the `;`-joined `name=value` fields and the `q` field |
| ContentType.SplitSerializedNamed | content-type.js:92-144 | the corrected output splits back into the type, each field and the `q` field |
| ContentType.SerializeNamedRoundTrip | content-type.js:66-88 | with names written, every canonical media type reads back from its string unchanged; canonical means a non-empty type with no surrounding whitespace and no `;` or `"`, parameter names that are tokens other than `q`, no value ending in a backslash, and a quality that is absent or a multiple of 0.001 in [0, 1] |
| ContentType.UnwrittenQualityLost | content-type.js:82-85 | a `NaN` or negative quality is not written, so an otherwise canonical media type reads back with no quality, which differs from the original |
| ContentTypeNegotiation.SpecificityConsistent | content-type.js:174-208 | the specificity comparator is antisymmetric and transitive on all types |
| ContentTypeNegotiation.QualityConsistent | content-type.js:156-172 | the quality comparator is antisymmetric and transitive on types whose `q` is not `NaN` |
| ContentTypeNegotiation.NaNAfterItself | content-type.js:158-170 | a `NaN` quality compares as after itself, so no order exists once one is present |
| ContentTypeNegotiation.Swap | content-type.js:157 | swaps two neighbouring entries in place |
| ContentTypeNegotiation.Insert | content-type.js:157 | one insertion step keeps the array a permutation and extends the sorted prefix by one |
| ContentTypeNegotiation.SinkFrom | content-type.js:157 | sinks one entry to its place, keeping a permutation |
| ContentTypeNegotiation.SortBy | content-type.js:157 | the in-place sort leaves a permutation, sorted whenever the comparator is consistent on the entries |
| ContentTypeNegotiation.SortBySpecificity | content-type.js:174-208 | sorts the array in place and returns it: a permutation, sorted by specificity |
| ContentTypeNegotiation.SortByQuality | content-type.js:156-172 | sorts the array in place and returns it: a permutation, sorted by quality when no `q` is `NaN` |
| ContentTypeNegotiation.MediaCmp | content-type.js:248-311 | the loop over `ap` returns `Compare`, an order-free description of the result |
| ContentTypeNegotiation.CompareSelf | content-type.js:248-311 | a media type compares equal to itself |
| ContentTypeNegotiation.CompareAnyType | content-type.js:249-253 | `*/*` is wider than any other type, in both argument orders |
| ContentTypeNegotiation.CompareAntisymmetric | content-type.js:248-311 | swapping the arguments negates the result when the types or the parameter counts differ |
| ContentTypeNegotiation.CompareConflictSymmetric | content-type.js:305-307 | a clash of non-empty values makes the two types disjoint both ways |
| ContentTypeNegotiation.CompareCrossing | content-type.js:284-308 | with crossing key sets of equal size, each side is reported wider than the other |
| ContentTypeNegotiation.CrossingExample | content-type.js:284-308 | `text/html;a=1` and `text/html;b=1` each compare as 1 against the other |
| ContentTypeNegotiation.CompareUnion | content-type.js:284-308 | the comparison over the union of keys gives -1, 0, 1 or none |
| ContentTypeNegotiation.ConflictSymmetric | content-type.js:305-307 | a value clash is seen from either side |
| ContentTypeNegotiation.CompareUnionAntisymmetric | content-type.js:284-308 | the union-of-keys comparison is antisymmetric for all pairs |
| ContentTypeNegotiation.CompareUnionCrossing | content-type.js:284-308 | the union-of-keys comparison finds crossing key sets disjoint |
| ContentTypeNegotiation.SubtypeWildcardExample | content-type.js:258-268 | `text/*` against `text/html` is disjoint, since only the main type's wildcard is looked at |
| ContentTypeNegotiation.FirstCovered | content-type.js:212-218 | the index found is in range |
| ContentTypeNegotiation.FirstCoveredSpec | content-type.js:212-218 | the first available type an accepted type covers, with none before it; none when no type is covered |
| ContentTypeNegotiation.FirstMatchSpec | content-type.js:210-222 | no match exactly when no accepted type covers any available type; otherwise the earliest covering pair, taking accepted types in the outer loop |
| ContentTypeNegotiation.FirstMatchOf | content-type.js:210-222 | the nested loops return `FirstMatch` |
| ContentTypeNegotiation.OkPermutation | content-type.js:232-238 | a property of every entry survives sorting |
| ContentTypeNegotiation.SortForSelect | content-type.js:232-238 | sort by specificity and then by quality: a permutation, sorted by quality when no `q` is `NaN` |
| ContentTypeNegotiation.Select | content-type.js:226-241 | the default options sort only the accepted list; the lists the options name are sorted; the result is the first match in the sorted lists |
| ContentTypeAlt.ParseQ | contenttype.js:79-82 | `parseQ` gives a number or `NaN`, and never undefined |
| ContentTypeAlt.Assign | contenttype.js:93-104 | assigning never changes the type |
| ContentTypeAlt.ParseParam | contenttype.js:89-105 | `parseParameter` never changes the type |
| ContentTypeAlt.ApplyFields | contenttype.js:29-31 | applying fields never changes the type |
| ContentTypeAlt.MediaType.constructor | contenttype.js:19-53 | the new object equals `Construct` of its two arguments |
| ContentTypeAlt.MediaType.ParseAll | contenttype.js:29-31 | each field is applied in order |
| ContentTypeAlt.MediaType.CopyParams | contenttype.js:35 | a copy takes every parameter of the source object |
| ContentTypeAlt.MediaType.AssignObject | contenttype.js:44-51 | `q` goes through `parseQ`, other entries through `parseParamValue`, and each overrides the parameter of the same name |
| ContentTypeAlt.MediaType.ParseParameter | contenttype.js:89-105 | the object's new state is `ParseParam` of its old state |
| ContentTypeAlt.MediaType.ToString | contenttype.js:107-124 | the loop writes `Serialize` of the object's state |
| ContentTypeAlt.AppendFields | contenttype.js:110-118 | appends `;name=value` for each key in order |
| ContentTypeAlt.ParseMedia | contenttype.js:169-173 | a fresh object read from the string, with `q` 1 when it was left undefined |
| ContentTypeAlt.ParseQRange | contenttype.js:79-82 | `NaN` exactly when `parseFloat` finds no number; otherwise a multiple of 0.001, at most 1, within 0.0005 of `min(x, 1)`, and not negative for a non-negative x |
| ContentTypeAlt.ParseQFormatQ | contenttype.js:79-121 | the written form of a three-decimal quality in [0, 1] reads back as itself |
| ContentTypeAlt.TinyQ | contenttype.js:79-82 | a quality below 0.0005 rounds to 0 and is still written, as `; q=0` |
| ContentTypeAlt.ZeroText | contenttype.js:120 | 0 is written as `0` |
| ContentTypeAlt.AssignFrame | contenttype.js:93-104 | `q` always sets the quality; another name sets its parameter only while there is no own `q`; empty names or values change nothing |
| ContentTypeAlt.ApplyFieldsAfterQ | contenttype.js:101-103 | once `q` is set, no later field adds a parameter and `q` stays set |
| ContentTypeAlt.ApplyFieldsAppend | contenttype.js:29-31 | applying `a + b` is applying `a` and then `b` |
| ContentTypeAlt.ParamsAfterQField | contenttype.js:99-103 | the parameters are those of the fields before the first `q` field |
| ContentTypeAlt.CopyThenString | contenttype.js:32-43 | a copy has `q` as an own property, so a string second argument adds no parameters |
| ContentTypeAlt.ConstructObject | contenttype.js:44-51 | an object argument sets `q` through `parseQ`, sets each other entry unquoted and keeps the rest |
| ContentTypeAlt.MediaOfQuality | contenttype.js:169-173 | `parseMedia` sets `q` to 1 exactly when the parsed object has none |
| ContentTypeAlt.NoUndefinedFromFields | contenttype.js:95-96 | parsing fields never leaves `q` undefined when it was not |
| ContentTypeAlt.AssignAt | contenttype.js:89-96 | a `name=value` field of tokens assigns that name and value |
| ContentTypeAlt.TokenField | contenttype.js:97-103 | before any `q`, such a field sets exactly that parameter |
| ContentTypeAlt.ObjectOverride | contenttype.js:44-51 | one token entry in an object overrides that parameter of the base |
| ContentTypeAlt.StringOverride | contenttype.js:39-43 | a string second argument applies its fields to the base |
| ContentTypeAlt.ExampleBase | contenttype.js:9-10 | `text/html;l=3` reads as type `text/html`, params `{l: "3"}` |
| ContentTypeAlt.ExampleObject | contenttype.js:8-10 | `new MediaType('text/html;l=3', {p: "4"})` has params `{l: "3", p: "4"}` |
| ContentTypeAlt.CharField | contenttype.js:89-103 | before any `q`, a one-letter name with a one-digit value, as in the documented examples, sets exactly that parameter |
| ContentTypeAlt.ExampleString | contenttype.js:12-14 | `new MediaType('text/html;l=3', 'p=4;l=5')` has params `{l: "5", p: "4"}` |
| ContentTypeAlt.QFieldsText | contenttype.js:119-122 | the quality suffix is zero or one field, and never holds a separator |
| ContentTypeAlt.SerializeText | contenttype.js:107-124 | `toString` is the type followed by the `;`-joined fields and the quality field |
| ContentTypeAlt.ParseParamField | contenttype.js:89-105 | a written field for a token name other than `q` sets exactly that parameter |
| ContentTypeAlt.ApplyParamFields | contenttype.js:29-31 | applying the written fields of some keys yields exactly those parameters |
| ContentTypeAlt.ParseQFieldText | contenttype.js:95-121 | the written `q` field reads back as the same quality |
| ContentTypeAlt.SplitSerialized | contenttype.js:128-159 | the output of `toString` splits back into the type, each field and the quality field |
| ContentTypeAlt.SerializeRoundTrip | contenttype.js:107-124 | every canonical media type reads back from its `toString` unchanged; canonical means a non-empty type with no surrounding whitespace and no `;` or `"`, parameter names that are tokens other than `q`, no value ending in a backslash, and a quality that is absent or a multiple of 0.001 in [0, 1] |
| ContentTypeAlt.UnwrittenQualityLost | contenttype.js:119-122 | an undefined, `NaN` or negative quality is not written, so an otherwise canonical media type reads back with no quality, which differs from the original |
| ContentTypeAlt.BackslashSerialized | contenttype.js:107-124 | type `t` with `a` set to `x\` and `q` 0 is written as `t;a="x\\"; q=0` |
| ContentTypeAlt.BackslashSplit | contenttype.js:144-149 | the closing quote of that text follows a backslash, so the span never closes and the text splits into `t` and one field that swallows the `q` field |
| ContentTypeAlt.BackslashRoundTripFails | contenttype.js:144-149 | reading that text back gives `a` the value `"x\\"; q=0` and no `q`: `toString` and the parser are not inverses once a value ends in a backslash |
| ContentTypeAltNegotiation.MediaCmp | contenttype.js:207-228 | the loop over `ap` returns `Compare`, an order-free description of the result |
| ContentTypeAltNegotiation.CompareSelf | contenttype.js:207-228 | a media type compares equal to itself |
| ContentTypeAltNegotiation.CompareAnyType | contenttype.js:208-209 | `*/*` is wider than any other type, in both argument orders |
| ContentTypeAltNegotiation.CompareIgnoresValues | contenttype.js:221-226 | the same type with the same keys and non-empty values compares as 0 both ways, whatever the values |
| ContentTypeAltNegotiation.WiderNarrower | contenttype.js:224-225 | with equal key sets, a key that makes `a` wider than `b` is a key that makes `b` narrower than `a`, and the converse |
| ContentTypeAltNegotiation.CompareAntisymmetric | contenttype.js:207-228 | swapping the arguments negates the result when the types differ, the counts differ, or the key sets are equal |
| ContentTypeAltNegotiation.CompareCrossing | contenttype.js:219-226 | with crossing key sets of equal size, each side is reported wider than the other |
| ContentTypeAltNegotiation.ValuesExample | contenttype.js:224-225 | `level=1` against `level=2` compares as 0 |
| ContentTypeAltNegotiation.EmptyValueExample | contenttype.js:225 | an empty value counts as missing: `a=` against `a=1` compares as -1 |
| ContentTypeAltNegotiation.OrOne | contenttype.js:183-186 | the default of `r.q` and `a.q` to 1: a non-zero number is kept; 0, `NaN` and an absent q become 1 |
| ContentTypeAltNegotiation.Product | contenttype.js:192 | `ca.q*cr.q` is a number exactly when both qualities are numbers, and `NaN` otherwise |
| ContentTypeAltNegotiation.Answer | contenttype.js:198 | `cr.type && cr`: the chosen type when its `type` is non-empty, and nothing otherwise |
| ContentTypeAltNegotiation.Select | contenttype.js:177-199 | the nested loops with the early return compute the fold `ScanReps` over reps and accepts |
| ContentTypeAltNegotiation.StepOutcome | contenttype.js:186-193 | the chosen pair is replaced only by a covering pair with a strictly larger product of the qualities defaulted to 1, and only while the recorded product is a number |
| ContentTypeAltNegotiation.ScanRepsStop | contenttype.js:193 | once a product of exactly 1 with a typed representation is recorded, the scan ends |
| ContentTypeAltNegotiation.SelectUncovered | contenttype.js:187-198 | with no covering pair, nothing is chosen |
| ContentTypeAltNegotiation.SelectElected | contenttype.js:181-198 | a result is one of the reps, has a non-empty type, and is covered by some accepted type |
| ContentTypeAltNegotiation.SelectFrozen | contenttype.js:189-192 | once the recorded product is `NaN`, nothing replaces the choice |
| ContentTypeAltNegotiation.FrozenExample | contenttype.js:189-192 | a first rep without `q` is kept even when a later rep has `q` 1 |
| ContentTypeAltNegotiation.ZeroQualityExample | contenttype.js:186 | an accepted `*/*;q=0` still selects a representation, since a quality of 0 defaults to 1 |
| ContentTypeAltNegotiation.UnitScore | contenttype.js:183-189 | with qualities in (0, 1], the pair score is in (0, 1] and equals the recorded product |
| ContentTypeAltNegotiation.SelectChoosesBest | contenttype.js:177-199 | with qualities in (0, 1], nothing is chosen exactly when no pair covers. Otherwise the choice is the rep of the first covering pair whose score no other covering pair exceeds; if every rep has a type, the returned value is none exactly when no pair covers |

## Left out

- `Decimal.ParseFloat` reads only `[+-]digits[.digits]` after leading whitespace. It has no exponent and no `Infinity`: `5e-1` reads as 5 where JavaScript reads 0.5, and `Infinity` reads as `NaN`. Real numbers stand in for doubles, so binary rounding is not modelled either.
- `ContentType.MediaType.ParseParameter`: through `ParseFloat`, `q=5e-1` gives the quality 5 where content-type.js:54 gives 0.5. `q=Infinity` gives `NaN`, which `toString` omits, while the source writes `;q=1`.
- `ContentTypeAlt.ParseQ`: through `ParseFloat`, `5e-1` gives 1 where the source gives 0.5, and `Infinity` gives `NaN` where the source gives 1.
- `ContentTypeNegotiation.SortForSelect` and `ContentTypeNegotiation.Select` promise a permutation sorted by quality. They do not promise that the engine's stable sort keeps the specificity order among entries of equal quality, although the insertion sort modelled here is stable.
- `ContentType.MediaType.constructor` takes an object argument as a map from strings to strings. Non-string values are not modelled.
- `ContentTypeAlt.MediaType.constructor` takes an object argument whose values are strings. The `value + ""` coercion of `parseParamValue` is therefore the identity, and the documented `{ p: 4 }` example is proved with `"4"` (`ExampleObject`).
- `Text.IsSpace` is ASCII whitespace (space, tab, line feed, vertical tab, form feed, carriage return). The other Unicode space characters that `trim` removes are not modelled.
- `Text.LexLe` orders keys by code point. The source's `sort()` compares UTF-16 code units, and the two differ for characters outside the Basic Multilingual Plane.
- `ContentType.MediaType.AssignAll`, `ContentTypeAlt.MediaType.AssignObject`, `ContentTypeAlt.MediaType.CopyParams`, `ContentTypeNegotiation.MediaCmp` and `ContentTypeAltNegotiation.MediaCmp` visit keys in an arbitrary order picked with `:|` rather than in `for…in` order. Their results are proved not to depend on the order.
- Parameter names that are inherited properties of `Object.prototype` are not modelled. For example, with `params` `{constructor: "x"}` on one side only, `typeof bp[n]` at content-type.js:289 sees a function, so the source returns null where `ContentTypeNegotiation.Compare` gives 1.
- `ContentTypeAltNegotiation.SelectChoosesBest` is proved only when every quality is in (0, 1]. With negative qualities or untyped representations, "nothing chosen exactly when nothing covers" does not hold. `SelectElected`, `SelectUncovered` and `SelectFrozen` hold for all inputs.
- `ContentType.SerializeNamedRoundTrip` holds only for canonical media types (`ContentType.Canonical`). The source also produces media types that do not read back unchanged:
  - a `NaN` or negative quality is not written, so it reads back as no quality (`ContentType.UnwrittenQualityLost`);
  - a quality above 1 or with more than three decimals, which `parseFloat` gives for `q=5` or `q=0.1234`, is written capped at 1 and rounded (`1`, `0.123`), so it reads back changed;
  - a parameter named `q`, which an object second argument such as `{q: "0.5"}` copies into `params`, is written as a `q` field and reads back as the quality;
  - a type that is empty, padded with whitespace, or holds `;` or `"` is trimmed or cut by the parser;
  - a value ending in a backslash, as the line below explains.
  The lemma also asks for token parameter names, which is stronger than needed: a name such as `a@b`, with no `=`, `;`, `"` or whitespace in it, also reads back, but the lemma does not cover it.
- `ContentTypeAlt.SerializeRoundTrip` holds only for canonical media types (`ContentTypeAlt.Canonical`). The source also produces media types that do not read back unchanged:
  - an undefined, `NaN` or negative quality is not written, so it reads back as no quality. `parseQ` does produce negative qualities, for example from `q=-1` (`ContentTypeAlt.UnwrittenQualityLost`);
  - a type that is empty, padded with whitespace, or holds `;` or `"` is trimmed or cut by the parser;
  - a value ending in a backslash, as the line below explains.
  The token-name condition is stronger than needed here too.
- `ContentTypeAlt.SerializeRoundTrip` and `ContentType.SerializeNamedRoundTrip` fail for values that end in a backslash, which their `Header.SafeValue` condition excludes. The splitter looks at only the one character before a quote (contenttype.js:147, content-type.js:124). So the closing quote after an escaped trailing backslash is taken for an escaped quote, the span never closes, and the rest of the text is read into that value. `ContentTypeAlt.BackslashRoundTripFails` shows the failure. A splitter that counts the run of backslashes before a quote is not modelled.
- `Splitter.SplitQuotedString` writes the source's `while (offset >= 0)` as a loop that exits on the same two conditions: no further stop character, or an unclosed quote.
- Sorting and selection work on media-type values held in arrays or sequences. The identity and aliasing of the JavaScript objects themselves are not modelled.
- `select` in content-type.js takes an options object. Only its two flags are modelled; other option values, such as truthy non-booleans, are not.
- `errors.js` and `example.js` are not part of this model: the first defines error classes that the core never throws, and the second is a usage demonstration.

## Findings

| source | as written | input that shows it | evidently intended | confidence | as-written member | corrected member |
|---|---|---|---|---|---|---|
| content-type.js:71-81 | `toString` appends each parameter's value right after the type, without `;` or the name | `text/html;level=1` and `text/html;charset=1` both print as `text/html1`, which parses back as the type `text/html1` with no parameters | write `;name=value` for each parameter, as contenttype.js:112 does, so that printing then parsing gives the media type back | not executed | ContentType.SerializeDropsNames | ContentType.SerializeNamedRoundTrip |
| content-type.js:284-308 | the key loop walks only `ap`; the union of keys `k` built at line 284 is never used | `text/html;a=1` against `text/html;b=1` returns 1 in both argument orders | walk the union of both key sets, so that crossing key sets are disjoint (null) and the comparison is antisymmetric | not executed | ContentTypeNegotiation.CrossingExample | ContentTypeNegotiation.CompareUnionAntisymmetric |
