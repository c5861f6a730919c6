# zan/common-bundle utilities, modelled in Dafny

This project models the pure string and array helpers of the
`Zan\CommonBundle\Util` classes and proves what they promise.

- **RequestUtils**: the duplicate-parameter rewrite behind
  `getParametersFromQueryString`. PHP's `parse_str` keeps only the last value
  of a repeated name. To work around that, the code makes two single-pass,
  two-state scans over the raw query string. `getToFix` collects the names
  that end more than one pair. The rewrite loop then copies the string and
  inserts `[]` just before the `=` that ends each pair whose name is listed.
  Both scans are modelled as state machines over `seq<char>`: `FixStep` /
  `FixRun` and `RewriteStep` / `RewriteRun`. They are compared with
  `Parse`, a reference reading of a query string as a chain of pairs. A
  name runs up to the first `=`, and a value runs up to the next `&`.
- **ZanString**: `removePrefix`, `removePostfix`, `endsWith` (through
  `strrpos`) and `startsWithi`. PHP truthiness is the predicate `Falsy`:
  null, `""` and `"0"` are false.
- **BundleUtils**: `getBundleName` for a class-name string. It splits the
  name on `\` and strips `Bundle` from the first segment that ends in it.
- **ZanSql**: `escapeLikeParameter` (the `addcslashes` escape of `%` and
  `_`) and `buildSetInfoFromMap` (the `name = :setField_name` list and its
  parameter map).
- **ZanArray**: `createFromString`. It chooses a delimiter, then splits and
  trims, producing a list, or a hash when `=` occurs.

The module `Php` holds the PHP built-ins the helpers use, stated over
strings: `explode`, `join`, `strpos`, `trim` and ASCII `strtolower`. It
also holds `Count`, the number of occurrences of a value in a sequence,
which the contracts use; no helper calls `substr_count`.

Nullable strings are `Option<string>`. The arrays `ZanArray` returns are
sequences: a list of strings, or a sequence of key/value pairs with
distinct keys, so their order is kept. The parameter map of
`buildSetInfoFromMap` is a Dafny `map`, which has no order.

Where the code and its doc comments disagree, the model follows the code:

- `buildSetInfoFromMap` names its placeholders `setField_`; the doc comment
  shows `setValue_`.
- `getBundleName` tests a case-sensitive suffix `Bundle`; the doc comment
  says a part that "includes bundle". So a segment that is exactly `Bundle`
  yields `""`, and `Somebundle` does not match.
- `getToFix` adds a name to its list on every repeat and never
  deduplicates. A name occurring k times is listed k - 1 times. The rewrite
  only asks whether a name is in the list, so this changes nothing
  downstream.
- `getToFix` does not clear its buffer at a name's `=`. The buffer is
  cleared at the next `&`, so names are the same in both scans.

## Model

| member | source | states |
|---|---|---|
| Php.Explode | src/Util/BundleUtils.php:21 | `explode` on one separator character returns at least one part, none containing the separator; it returns two or more parts exactly when the separator occurs |
| Php.JoinExplode | src/Util/BundleUtils.php:21 | joining the parts of an explode with the same separator gives the string back |
| Php.ExplodeJoin | src/Util/BundleUtils.php:21 | exploding a join of separator-free parts gives the parts back |
| Php.TrimStart | src/Util/ZanArray.php:68 | `ltrim` keeps a suffix of the input; everything dropped is whitespace from the set `trim` uses, and the result does not start with such whitespace |
| Php.TrimEnd | src/Util/ZanArray.php:68 | `rtrim` keeps a prefix of the input; everything dropped is whitespace from the same set, and the result does not end with such whitespace |
| Php.TrimIdempotent | src/Util/ZanArray.php:68 | trimming twice is trimming once |
| Php.IndexOf | src/Util/ZanArray.php:73 | the first position of a character that occurs, the place where `explode` makes its first cut |
| Php.ExplodeFirstTwo | src/Util/ZanArray.php:73 | the first two parts of an explode are the text before the first separator and the text from there up to the next separator or the end, the two values `list($key, $value)` takes |
| QueryString.ParseSound | src/Util/RequestUtils.php:58-89 | the reference reading of a query string emits the input exactly; names hold no `=`, values hold no `&` |
| QueryString.ParseUnparse | src/Util/RequestUtils.php:58-89 | the reading is unique: a well-formed chain of pairs is read back as itself |
| QueryString.ParseAtEquals | src/Util/RequestUtils.php:62-70 | a name ends at its first `=` |
| QueryString.ParseValueAtAmpersand | src/Util/RequestUtils.php:78-84 | a value ends at its first `&`, which starts the next pair |
| QueryString.ParseValueCons | src/Util/RequestUtils.php:78-86 | any character other than `&` read in the value state belongs to the value, `=` included |
| QueryString.MarkWellFormed | src/Util/RequestUtils.php:62-68 | inserting `[]` into names keeps the pair structure, since `[]` holds no `=` |
| QueryString.MarkNamesValues | src/Util/RequestUtils.php:62-68 | marking keeps the number of pairs, marks exactly the names in `toFix`, and leaves every value as it was |
| QueryString.MarkLength | src/Util/RequestUtils.php:65-66 | each inserted marker adds two characters |
| QueryString.MarkNothing | src/Util/RequestUtils.php:65 | with nothing to fix, marking changes nothing |
| QueryString.FixStepEquals | src/Util/RequestUtils.php:114-123 | at a name-ending `=`, the list so far plus the repeats among the names still pending is the same before and after the step, the name having moved into the seen set |
| QueryString.FixStepName | src/Util/RequestUtils.php:125-127 | any other character read in the name state, `&` included, stays part of the pending name |
| QueryString.FixStepAmpersand | src/Util/RequestUtils.php:129-135 | a value-ending `&` leaves the pending names unchanged, the next name starting after it |
| QueryString.FixStepValue | src/Util/RequestUtils.php:129-130 | a value character leaves the pending names unchanged |
| QueryString.FixStepPending | src/Util/RequestUtils.php:110-137 | one iteration of getToFix keeps its invariant: the repeats found so far plus those in the rest are the repeats of the whole input |
| QueryString.FixRunRepeats | src/Util/RequestUtils.php:110-139 | the getToFix loop, from any state, ends with the repeats of the names still to be read |
| QueryString.GetToFixIsRepeats | src/Util/RequestUtils.php:102-140 | getToFix returns, in order, every occurrence after the first of each pair name |
| QueryString.RepeatsCount | src/Util/RequestUtils.php:117-122 | a name occurring k times is reported k - 1 times, or k times if it was already seen |
| QueryString.GetToFixCount | src/Util/RequestUtils.php:117-118 | a name ending k >= 1 pairs appears k - 1 times in the getToFix list |
| QueryString.GetToFixMember | src/Util/RequestUtils.php:114-123 | a name is in the getToFix list iff it ends two or more pairs |
| QueryString.RewriteStepEquals | src/Util/RequestUtils.php:62-72 | at a name-ending `=`, output so far plus the text still to emit is unchanged by the step, which emits the name (marked iff in `toFix`) and `=` |
| QueryString.RewriteStepName | src/Util/RequestUtils.php:74-76 | any other character read in the name state, `&` included, stays part of the text still to emit as a name |
| QueryString.RewriteStepAmpersand | src/Util/RequestUtils.php:78-85 | at a value-ending `&`, output so far plus the text still to emit is unchanged by the step, which emits the buffered value and the `&` verbatim |
| QueryString.RewriteStepValue | src/Util/RequestUtils.php:78-79 | a value character is buffered, and the text still to emit is unchanged |
| QueryString.RewriteStepPending | src/Util/RequestUtils.php:58-87 | one iteration of the rewrite keeps its invariant: output so far plus what the rest will emit is the marked input |
| QueryString.RewriteRunText | src/Util/RequestUtils.php:58-89 | the rewrite loop, from any state, emits the marked form of the rest, the buffer flushed at the end |
| QueryString.RewriteIsMark | src/Util/RequestUtils.php:51-89 | the rewritten string is the input's pairs re-emitted with the names in `toFix` marked |
| QueryString.RewriteStructure | src/Util/RequestUtils.php:58-89 | reading the rewritten string gives the input's pairs in order, the names in `toFix` marked, values and trailing text unchanged |
| QueryString.RewriteNothingToFix | src/Util/RequestUtils.php:58-89 | with an empty list the rewrite returns its input; so a query in which no name ends two or more pairs reaches `parse_str` unchanged |
| QueryString.RewriteLength | src/Util/RequestUtils.php:62-68 | the output length is the input length plus two per marked pair |
| QueryString.FixQueryStringMarksRepeatedNames | src/Util/RequestUtils.php:51-89 | end to end, the string handed to `parse_str` has the input's pairs and values; a name carries `[]` iff it ends two or more pairs, its first pair included |
| QueryStringExamples.ExampleEmpty | src/Util/RequestUtils.php:88-89 | the empty query string gives an empty list and an empty rewrite |
| QueryStringExamples.ExampleBasic | tests/Util/RequestUtilsTest.php:13-17 | `name1=val1&name2=val2` has nothing to fix and is left unchanged |
| QueryStringExamples.ExampleCgiArray | tests/Util/RequestUtilsTest.php:25-32 | `name1=val1&arrVal=one&arrVal=two` becomes `name1=val1&arrVal[]=one&arrVal[]=two` |
| QueryStringExamples.ExampleParamInData | tests/Util/RequestUtilsTest.php:40-47 | a value equal to a repeated name is not marked |
| QueryStringExamples.ExampleThreeTimes | src/Util/RequestUtils.php:46-48 | `a=1&a=2&a=3` lists `a` twice and marks all three pairs |
| QueryStringExamples.ExampleAmpersandInName | src/Util/RequestUtils.php:125-127 | in `foo&a=1` the name is `foo&a`, so nothing repeats |
| QueryStringExamples.ExampleTrailingName | src/Util/RequestUtils.php:88-89 | a trailing name with no `=` is flushed unchanged |
| QueryStringExamples.ExampleEqualsInValue | src/Util/RequestUtils.php:78-86 | a second `=` inside a value is copied as value text |
| ZanString.RemovePrefix | src/Util/ZanString.php:12-19 | if `s` starts with the prefix, prefix + result is `s`; otherwise, and always for the empty prefix, the result is `s` |
| ZanString.LastIndexFrom | src/Util/ZanString.php:42 | the search returns an occurrence at or before the start point, and none later up to that point is missed |
| ZanString.LastIndexOf | src/Util/ZanString.php:42 | `strrpos` returns an occurrence, and no later occurrence exists |
| ZanString.EndsWithIsSuffix | src/Util/ZanString.php:38-46 | endsWith holds iff both arguments are truthy and the needle is a suffix of the haystack |
| ZanString.RemovePostfix | src/Util/ZanString.php:24-33 | a falsy argument returns the input; when it ends with the postfix, result + postfix is the input; otherwise the input is returned |
| ZanString.StartsWithIChars | src/Util/ZanString.php:51-56 | startsWithi holds iff both are truthy and the needle's characters match the haystack's first ones up to ASCII case |
| ZanString.StartsWithICaseInvariant | src/Util/ZanString.php:51-56 | changing the ASCII case of either argument does not change startsWithi |
| BundleUtils.FirstBundle | src/Util/BundleUtils.php:22-28 | the loop returns null iff no segment ends in `Bundle` |
| BundleUtils.FirstBundleAt | src/Util/BundleUtils.php:22-25 | the first segment ending in `Bundle` wins, returned without the suffix |
| BundleUtils.FirstBundleSegment | src/Util/BundleUtils.php:22-24 | a non-null result followed by `Bundle` is one of the segments |
| BundleUtils.GetBundleNameSpec | src/Util/BundleUtils.php:17-28 | getBundleName is null iff no `\`-separated segment ends in `Bundle`; otherwise the result plus `Bundle` is a segment |
| BundleUtils.BundleNameOf | src/Util/BundleUtils.php:21-25 | for a class name built from its segments, the name is the first `Bundle`-suffixed segment without the suffix |
| BundleUtils.NoBundleNameOf | src/Util/BundleUtils.php:21-28 | a class name none of whose segments ends in `Bundle` gives null |
| BundleUtils.ExampleSomeProduct | src/Util/BundleUtils.php:11 | `Corp\SomeProductBundle\Entity\Order` gives `SomeProduct` |
| BundleUtils.ExampleBareBundle | src/Util/BundleUtils.php:23-24 | a segment that is exactly `Bundle` gives `""` |
| BundleUtils.ExampleLowerCase | src/Util/BundleUtils.php:23 | `Somebundle` does not match, because the test is case-sensitive |
| ZanSql.EscapeLikeValue | src/Util/ZanSql.php:140 | every `%` and `_` of the result is preceded by a backslash, and the length grows by one per wildcard |
| ZanSql.UnescapeEscape | src/Util/ZanSql.php:140 | dropping the backslash before each wildcard recovers the value, so backslashes already in it are copied unchanged |
| ZanSql.EscapeLikeNoWildcard | src/Util/ZanSql.php:140 | a value without wildcards is left unchanged |
| ZanSql.EscapeLikeParameter | src/Util/ZanSql.php:137-143 | the result is prefix, escaped value, postfix: it starts with the prefix, ends with the postfix, and unescaping the middle gives the value |
| ZanSql.SetParts | src/Util/ZanSql.php:202-203 | one `name = :setField_name` part per field, in field order |
| ZanSql.ParametersBind | src/Util/ZanSql.php:202-205 | with distinct field names the parameters hold exactly one entry per field, `setField_` + name mapped to its value |
| ZanSql.FreshKey | src/Util/ZanSql.php:204 | a name that no earlier field has is not yet a key of the parameters, since `setField_` + name determines the name |
| ZanSql.BindSnoc | src/Util/ZanSql.php:204 | assigning the next field under a fresh key binds it and keeps the earlier bindings |
| ZanSql.BuildSetInfoFromMap | src/Util/ZanSql.php:194-210 | the query is the `", "`-join of the extra parts then one part per field; parameters bind exactly the fields; no fields and no extras give `""` and no parameters |
| ZanArray.ChooseDelimiter | src/Util/ZanArray.php:35-37 | the delimiter is the forced one if present, else `,` if present, else `&` |
| ZanArray.SplitPair | src/Util/ZanArray.php:73-75 | the key is the trimmed text before the first value delimiter; the value is the trimmed text up to the next one; the rest is dropped |
| ZanArray.Lookup | src/Util/ZanArray.php:76 | a lookup is absent iff the key is not in the hash, and a present one is an entry |
| ZanArray.Assign | src/Util/ZanArray.php:76 | after assignment the key holds the new value and every other key holds what it held |
| ZanArray.AssignKeys | src/Util/ZanArray.php:76 | an existing key keeps its place; a new key goes at the end |
| ZanArray.AssignDistinct | src/Util/ZanArray.php:76 | assignment keeps keys distinct |
| ZanArray.Step | src/Util/ZanArray.php:67-79 | one turn of the loop keeps the list or hash shape |
| ZanArray.CreateFromString | src/Util/ZanArray.php:27-32 | array input is returned unchanged; null, `""` and `"0"` give the empty list |
| ZanArray.NonBlankTrimmed | src/Util/ZanArray.php:68-69 | the kept items are trimmed and not empty |
| ZanArray.NonBlankMember | src/Util/ZanArray.php:64-79 | a string is kept iff it is the trimmed form of some non-empty item |
| ZanArray.CollectList | src/Util/ZanArray.php:64-82 | without a value delimiter, the loop appends the trimmed non-empty items in order |
| ZanArray.LastValueSpec | src/Util/ZanArray.php:72-77 | the reference value of a key is that of its last pair, or none if no pair has the key |
| ZanArray.StepAfter | src/Util/ZanArray.php:72-77 | one hash-mode turn moves its pair from the pairs still to assign into the hash without changing any final value |
| ZanArray.CollectHash | src/Util/ZanArray.php:64-82 | in hash mode every key ends with the value of its last item; other keys keep what the hash had |
| ZanArray.CollectHashDistinct | src/Util/ZanArray.php:72-77 | the hash built by the loop has distinct keys |
| ZanArray.SingleItem | src/Util/ZanArray.php:46-53 | no delimiter and no `=` give the one-item list of the untrimmed string |
| ZanArray.SinglePair | src/Util/ZanArray.php:46-49 | no delimiter but an `=` give the single trimmed key/value entry |
| ZanArray.SplitList | src/Util/ZanArray.php:63-82 | a delimiter and no `=` give the trimmed non-empty items in order |
| ZanArray.SplitHash | src/Util/ZanArray.php:63-82 | a delimiter and an `=` give a hash with distinct keys in which each key holds its last item's value |
| ZanArray.ExampleCommas | tests/Util/ZanArrayTest.php:20-30 | `one, two, three` gives the list `one`, `two`, `three` |

## Left out

- `RequestUtils::getParameters` reads `$_SERVER`, which is global input; it is not modelled.
- `parse_str` is not modelled. It does percent-decoding, turns `+` into a space and builds arrays from brackets, and it is a PHP library primitive. The query-string properties are stated about the string handed to it. The unit tests' decoded arrays become expected rewritten strings.
- `in_array` compares loosely in PHP, so numeric strings such as `"1"` and `"01"` are equal there. The model uses exact string equality, so such names count as different names.
- PHP turns numeric-string array keys into integers, in `$seenNames` and in the `ZanArray` hash. This has no observable effect on the strings modelled here.
- `$foundParamNames` in the rewrite loop is written but never read, so it is not modelled.
- `ZanString::startsWithi` uses `strtolower`, which may depend on the locale; the model lower-cases ASCII only.
- `BundleUtils::getBundleName` with an object argument uses `get_class`; only class-name strings are modelled.
- ZanArray.CreateFromString: the `&` branch hands the string to `parse_str`, so the model's precondition excludes it.
- ZanArray.CreateFromString: in hash mode, an item without the value delimiter makes the source read a missing list element. The model's precondition excludes such input.
- ZanArray.CreateFromString: the forced delimiters are single characters. Inputs that are neither null, a string nor an array are not modelled.
- ZanArray.Step: an item is compared with `""` by string equality, as PHP 8 does between two strings.
- ZanSql.BuildSetInfoFromMap: the fields are a sequence of pairs with distinct names, standing for a PHP array. Values have any type, and names are strings.
- The `ZanSql` database helpers are database I/O or driver quoting: `toArray`, `toFlatArray`, `singleValue`, `singleRow`, `query`, `getServerVersion`, `tableExists` and `inFromArray`.
- ZanSql.BuildSetInfoFromMap: the parameters are a `map`, so the insertion order of the PHP array is not modelled. Placeholders are bound by name, so the order has no effect.
- Strings are modelled as sequences of characters, while `explode`, `strpos`, `trim`, `strtolower` and `substr` work on bytes. Every delimiter and character tested here is ASCII, and UTF-8 never uses an ASCII byte inside a multi-byte character, so the two readings give the same splits.
- How a database reads the LIKE pattern built by `escapeLikeParameter` is not modelled. The model stops at the escaped string.
- `ZanObject` and `ZanAnnotation` wrap reflection and annotation readers. `ZanEntity::isSame` depends on object identity and `get_class`. `ZanDebug` passes through to `dump()`. None of these is part of this model.
