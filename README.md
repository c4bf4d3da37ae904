# Case-conversion utilities, modelled in Dafny

This project models the repository's three string case-conversion utilities.

- **`toCamelCase` and `toDotCase`** (`refined_prompt.js`) share a set of guard clauses:
  - they refuse `null` or `undefined`;
  - they refuse any value that is not a string;
  - they refuse a string that does not match `/^[a-zA-Z0-9\s\-_]+$/`;
  - they refuse a string that has no word.

  A word comes from trimming the input, splitting it at each run of `[\s\-_]` and dropping the empty pieces. `toCamelCase` lower-cases the first word, capitalises every later word and runs them together. `toDotCase` lower-cases every word and joins them with dots.
- **`toKebabCase`** (`chain_prompt.js`) splits at single spaces, joins with hyphens and lower-cases the result. It does no validation.
- **`covertToCamelCase`** (`basic_prompt.js`) splits at single spaces. It lower-cases the first piece, upper-cases the first character of every later piece, lower-cases the rest of that piece, and joins the pieces with nothing between them. It does no validation either.

Modules:

- `Ascii` (`ascii.dfy`) holds the character classes and case mappings, and the white-space set of ECMAScript that `\s` and `trim()` use.
- `JsString` (`js_string.dfy`) holds the string and array built-ins the utilities call: `split` on one character, `join`, `charAt` and `slice`. It also holds `IndexOf`, the first-occurrence search that `split` performs internally. Unlike `String.prototype.indexOf`, which none of the utilities calls, `IndexOf` reports a missing character as the length of the string rather than -1.
- `RefinedPrompt`, `ChainPrompt` and `BasicPrompt` hold one source file each.

All three utilities are pure, so the model is functions and lemmas. A JavaScript exception becomes an `Err` carrying one `CaseError` per message the source throws. The argument of the refined utilities is a `JsValue`: `Null`, `Undefined`, `Str(s)` or `Other`.

Each conversion is tied, by an all-inputs lemma, to an independent definition:

- **`toCamelCase` and `toDotCase`** match `Scan`, a single left-to-right pass. The pass drops separators, lower-cases, and marks the start of each later word by upper-casing (camelCase) or by a dot (dot.case).
- **The words of the input** are exactly its maximal runs of non-separators, in order. `Weave`/`Gaps`/`Decomposition` state this, in both directions.
- **`toKebabCase`** is replacing each space by a hyphen, then lower-casing.
- **`covertToCamelCase`** matches `SpaceCamel`, a single pass. It drops each space, upper-cases the character right after a space, and lower-cases every other character.

The comment at `chain_prompt.js:13` gives `multiple-spaces` as the result for `'Multiple   Spaces'`. The code splits at single spaces, and so gives `multiple---spaces`. The model follows the code (`ChainPrompt.MultipleSpaces`).

## Model

| member | source | states |
|---|---|---|
| Ascii.Lower | refined_prompt.js:73 | `toLowerCase` on one character: the result is never upper case; an upper-case letter becomes a lower-case one; every other character is kept; letters and digits stay letters and digits |
| Ascii.Upper | refined_prompt.js:77 | `toUpperCase` on one character: the result is never lower case; a lower-case letter becomes upper case; every other character is kept; letters and digits stay letters and digits |
| Ascii.CaseRoundTrip | refined_prompt.js:73-77 | upper-casing the lower-cased character is the same as upper-casing it directly, and the converse |
| Ascii.IsAlphaNumeric | refined_prompt.js:56 | the class `[a-zA-Z0-9]`; no contract of its own: `Lower` and `Upper` keep it, and `AlphaNumericIsNotSpace` keeps it apart from `\s` |
| Ascii.LowerStr | refined_prompt.js:73 | `str.toLowerCase()`, character by character; no contract of its own: `LowerStrConcat` and `LowerStrCons` give it over concatenation and on a first character, and `ChainPrompt.KebabAlphabet` and `RefinedPrompt.DotCaseShape` state that its results have no upper-case letter |
| Ascii.UpperStr | refined_prompt.js:77 | `str.toUpperCase()`, character by character; no contract of its own: `RefinedPrompt.EmitWord` and `BasicPrompt.LaterPiece` give it on the one-character strings it is applied to |
| Ascii.JsSpaceListed | refined_prompt.js:56 | the `\s` class is exactly TAB, LF, VT, FF, CR, SP, NBSP, U+1680, U+2000-U+200A, U+2028, U+2029, U+202F, U+205F, U+3000 and U+FEFF |
| Ascii.AlphaNumericIsNotSpace | refined_prompt.js:56 | no character of `[a-zA-Z0-9]` is in `\s` |
| JsString.IndexOf | basic_prompt.js:3 | the search `split(' ')` does for the next separator, with "not found" reported as the string's length: the position found is within the string; no earlier position holds the character; if the position is before the end, it holds the character |
| JsString.Join | refined_prompt.js:79 | `xs.join(sep)`, with `[].join(sep)` equal to `""`; no contract of its own: `JoinLength`, `JoinKeeps`, `CountJoin` and the two round trips specify it |
| JsString.CharAt | refined_prompt.js:77 | `s.charAt(i)`, the one-character string at `i` or `""` past the end; no contract of its own: `BasicPrompt.LaterPiece` and `RefinedPrompt.EmitWord` use it on position 0 |
| JsString.Slice | refined_prompt.js:77 | `s.slice(i)` for `i >= 0`, the suffix from `i` or `""` past the end; no contract of its own: `BasicPrompt.LaterPiece` and `RefinedPrompt.EmitWord` use it on position 1 |
| JsString.Split | chain_prompt.js:3 | `split(c)` gives one piece more than the number of times `c` occurs, and no piece contains `c` |
| JsString.JoinSplitReplaces | chain_prompt.js:3-4 | splitting at `c` and joining with `d` is replacing every `c` by `d` |
| JsString.JoinSplitRoundTrip | chain_prompt.js:3-4 | joining the pieces of `split(c)` with `c` gives back the string |
| JsString.SplitJoinRoundTrip | refined_prompt.js:129 | pieces without `c`, joined with `c` and split at `c`, come back unchanged |
| JsString.JoinLength | refined_prompt.js:79 | the joined string is as long as all the pieces together, plus one separator per gap |
| JsString.JoinKeeps | refined_prompt.js:79 | a character property that holds for every piece and for the separator holds for the whole joined string |
| JsString.CountJoin | refined_prompt.js:129 | pieces without `c`, joined with `c`, contain `c` exactly once per gap |
| RefinedPrompt.TrimStart | refined_prompt.js:62 | the result is a suffix of the input; every character dropped is white space; the result does not start with white space |
| RefinedPrompt.TrimEnd | refined_prompt.js:62 | the result is a prefix of the input; every character dropped is white space; the result does not end with white space |
| RefinedPrompt.LeadingSpaces | refined_prompt.js:62 | the number of white-space characters the string starts with: all of them white space, and the next character, if any, not |
| RefinedPrompt.TrailingSpaces | refined_prompt.js:62 | the number of white-space characters the string ends with: all of them white space, and the one before them, if any, not |
| RefinedPrompt.SeparatorIndex | refined_prompt.js:63 | the position of the first `[\s\-_]` character, or the length of the string if there is none |
| RefinedPrompt.SeparatorRunLength | refined_prompt.js:63 | the length of the separator run the string starts with, the `+` of the pattern: all of it separators, and the next character, if any, not |
| RefinedPrompt.Message | refined_prompt.js:48-67 | the four texts the guard clauses throw; no contract of its own: `MessagesDistinct` states that different errors have different messages |
| RefinedPrompt.MessagesDistinct | refined_prompt.js:48-67 | two errors have the same message exactly when they are the same error |
| RefinedPrompt.Trim | refined_prompt.js:62 | `str.trim()` as `TrimEnd` after `TrimStart`; no contract of its own: those two functions' contracts and `TrimChangesNoWord` specify it |
| RefinedPrompt.SplitOnSeparatorRuns | refined_prompt.js:63 | `split(/[\s\-_]+/)`, cutting at each maximal run of separators; no contract of its own: `WordsAreMaximalRuns` and `DecompositionDeterminesWords` specify it together with the filter |
| RefinedPrompt.KeepNonEmpty | refined_prompt.js:64 | `filter(word => word.length > 0)`; no contract of its own: `WordsAreMaximalRuns` states that every word kept is non-empty and that no non-empty piece is lost |
| RefinedPrompt.Words | refined_prompt.js:61-64 | the trim, split and filter chain; no contract of its own: `WordsAreMaximalRuns`, `DecompositionDeterminesWords` and `NoWordsIffAllSeparators` give its result on every string |
| RefinedPrompt.IsSeparator | refined_prompt.js:63 | the class `[\s\-_]`: JavaScript white space, `-` or `_`; no contract of its own: `Ascii.JsSpaceListed` lists its white-space part, and `Ascii.AlphaNumericIsNotSpace` keeps it apart from `[a-zA-Z0-9]` |
| RefinedPrompt.IsAllowed | refined_prompt.js:56 | the class `[a-zA-Z0-9\s\-_]`: a letter, a digit or a separator; no contract of its own: `ValidationOrder` and `TwoWordsAllowed` use it through `MatchesCharClass` |
| RefinedPrompt.MatchesCharClass | refined_prompt.js:56 | `/^[a-zA-Z0-9\s\-_]+$/.test(str)`: at least one character, all allowed; no contract of its own: `ValidationOrder` gives the invalid-characters outcome exactly when it fails, `TwoWordsAllowed` states it of two words around a separator, and `EmptyInputExamples` and `InvalidInputExamples` show the empty string and `'82&*)73'` failing it |
| RefinedPrompt.SplitWords | refined_prompt.js:63-64 | `split(/[\s\-_]+/).filter(word => word.length > 0)` without the trim; no contract of its own: `TrimChangesNoWord` states that it gives the same words as the trimmed chain, and `ScanEmitsWords` ties its words to the one-pass definition |
| RefinedPrompt.Validate | refined_prompt.js:47-68 | the guard clauses, and on success the words; no contract of its own: `ValidationOrder` gives its outcome on every input and `ValidatedWords` the shape of the words |
| RefinedPrompt.CamelWord | refined_prompt.js:72-78 | the map callback of `toCamelCase`; no contract of its own: `EmitWord` gives it on a non-empty word, and `CamelWordChars` states it keeps a word letters and digits |
| RefinedPrompt.CamelWords | refined_prompt.js:71-78 | `words.map((word, index) => ...)` from position `index` on; its ensures keeps the number of words, `CamelWordsAt` states that the k-th result is the callback applied at position `index + k`, `CamelWordsLength` that the total length is kept, and `CamelJoinEmits` ties the joined result to the one-pass definition |
| RefinedPrompt.LowerWords | refined_prompt.js:128 | `words.map(word => word.toLowerCase())`; its ensures keeps the number of words, and `LowerWordsShape` states, for words of letters and digits, that each result is its word lower-cased |
| RefinedPrompt.ToCamelCase | refined_prompt.js:45-80 | no contract of its own: `ValidationOrder` and `SameValidation` give its errors on every input, and `CamelCaseMatchesScan` and `CamelCaseShape` give its output |
| RefinedPrompt.ToDotCase | refined_prompt.js:101-130 | no contract of its own: `ValidationOrder` and `SameValidation` give its errors on every input, and `DotCaseMatchesScan`, `DotCaseShape` and `DotCaseSplitsBack` give its output |
| RefinedPrompt.TrimChangesNoWord | refined_prompt.js:61-64 | trimming first does not change the words that splitting and filtering produce |
| RefinedPrompt.WordsAreMaximalRuns | refined_prompt.js:61-64 | the words are non-empty and free of separators; neighbouring words are kept apart by at least one separator; words and separator runs, interleaved, rebuild the input exactly |
| RefinedPrompt.DecompositionDeterminesWords | refined_prompt.js:61-64 | conversely, any layout of a string into separator runs and non-empty separator-free runs, with the inner runs non-empty, yields those runs as its words |
| RefinedPrompt.NoWordsIffAllSeparators | refined_prompt.js:61-68 | there is no word exactly when every character of the input is a separator |
| RefinedPrompt.ValidatedWords | refined_prompt.js:55-68 | after validation there is at least one word, and every word is a non-empty run of ASCII letters and digits |
| RefinedPrompt.ValidationOrder | refined_prompt.js:47-68 | the guard order and outcome for every input: null or undefined, then any other non-string, then a character outside the class (the empty string included), then a string of separators only; every other string converts |
| RefinedPrompt.SameValidation | refined_prompt.js:101-124 | `toDotCase` refuses exactly the inputs `toCamelCase` refuses, with the same error |
| RefinedPrompt.ScanEmitsWords | refined_prompt.js:61-79 | the one-pass definition produces, for every string, what casing and joining its words produces |
| RefinedPrompt.CamelCaseMatchesScan | refined_prompt.js:45-80 | `toCamelCase` on a string is one of three outcomes: the invalid-characters error, the no-word error when every character is a separator, or the one-pass camelCase output |
| RefinedPrompt.DotCaseMatchesScan | refined_prompt.js:101-130 | `toDotCase` on a string is one of three outcomes: the invalid-characters error, the no-word error when every character is a separator, or the one-pass dot.case output |
| RefinedPrompt.CamelCaseShape | refined_prompt.js:70-79 | a camelCase output is as long as its words together, consists only of letters and digits, and starts with the first word lower-cased |
| RefinedPrompt.DotCaseShape | refined_prompt.js:126-129 | a dot.case output has exactly one dot per gap between words, is as long as the words plus the dots, and otherwise holds only lower-case letters and digits |
| RefinedPrompt.DotCaseSplitsBack | refined_prompt.js:126-129 | splitting a dot.case output at its dots gives back the lower-cased words |
| RefinedPrompt.TwoWords | refined_prompt.js:55-68 | two words of letters and digits with one separator between them validate into exactly those two words |
| RefinedPrompt.FirstName | refined_prompt.js:18 | `'first name'` gives `firstName` and `first.name` |
| RefinedPrompt.UserId | refined_prompt.js:19 | `'user_id'` gives `userId` and `user.id` |
| RefinedPrompt.ScreenName | refined_prompt.js:20 | `'SCREEN_NAME'` gives `screenName` and `screen.name` |
| RefinedPrompt.MobileNumber | refined_prompt.js:21 | `'mobile-number'` gives `mobileNumber` and `mobile.number` |
| RefinedPrompt.DocumentedExamples | refined_prompt.js:17-43 | the four documented inputs, converted in both styles, give the documented outputs |
| RefinedPrompt.InvalidInputExamples | refined_prompt.js:89-99 | `'82&*)73'` is refused for its characters; `null` is refused with the message "Input cannot be null or undefined" |
| RefinedPrompt.EmptyInputExamples | refined_prompt.js:56-67 | the empty string fails the character class; a string of separators only passes it and is then refused for having no word |
| ChainPrompt.KebabAsReplace | chain_prompt.js:1-6 | `toKebabCase` is replacing every space by a hyphen and then lower-casing |
| ChainPrompt.ToKebabCase | chain_prompt.js:1-6 | no contract of its own: `KebabAsReplace` and `KebabPointwise` give its output on every string |
| ChainPrompt.KebabPointwise | chain_prompt.js:1-6 | the length is kept; each space becomes a hyphen and every other character is lower-cased, position by position, so runs of spaces are not collapsed |
| ChainPrompt.KebabAlphabet | chain_prompt.js:5 | the output holds no space and no upper-case letter |
| ChainPrompt.KebabIdempotent | chain_prompt.js:1-6 | converting a converted string changes nothing |
| ChainPrompt.KebabHyphens | chain_prompt.js:3-4 | an output position holds a hyphen exactly when the input position holds a space or a hyphen |
| ChainPrompt.KebabConcat | chain_prompt.js:1-6 | converting a concatenation gives the concatenation of the conversions |
| ChainPrompt.KebabOfWord | chain_prompt.js:3-5 | a string without spaces is only lower-cased |
| ChainPrompt.KebabWordThen | chain_prompt.js:3-5 | a space-free word, a space and a rest give the lower-cased word, a hyphen and the converted rest |
| ChainPrompt.HelloWorld | chain_prompt.js:9 | `'Hello World'` gives `hello-world` |
| ChainPrompt.ProgrammingLanguage | chain_prompt.js:10 | `'JavaScript Programming Language'` gives `javascript-programming-language` |
| ChainPrompt.ConvertThis | chain_prompt.js:11 | `'convert this to kebab case'` gives `convert-this-to-kebab-case` |
| ChainPrompt.Single | chain_prompt.js:12 | `'single'` gives `single` |
| ChainPrompt.MultipleSpaces | chain_prompt.js:13 | `'Multiple   Spaces'` gives `multiple---spaces`: each of the three spaces becomes a hyphen |
| ChainPrompt.EmptyString | chain_prompt.js:1-6 | the empty string converts to itself |
| BasicPrompt.LaterPiece | basic_prompt.js:8 | a piece after the first becomes its first character upper-cased and the rest lower-cased; an empty piece gives nothing, because `charAt(0)` of an empty string is `""` |
| BasicPrompt.CamelPiece | basic_prompt.js:4-9 | the map callback; no contract of its own: `LaterPiece` gives it on a later piece, and `SpaceCamelPiece` ties it to the one-pass definition |
| BasicPrompt.MapPieces | basic_prompt.js:4-9 | `pieces.map(callback)` from position `index` on; its ensures keeps the number of pieces, and `PiecesMatchPass` ties the joined result to the one-pass definition |
| BasicPrompt.CovertToCamelCase | basic_prompt.js:1-11 | no contract of its own: `CamelMatchesPass` gives its output on every string, and `CamelDropsSpaces` its alphabet and length |
| BasicPrompt.PiecesMatchPass | basic_prompt.js:3-10 | the pieces from position `index` on, cased and joined, are the one-pass definition over the string they were split from |
| BasicPrompt.SpaceCamelPiece | basic_prompt.js:4-9 | the one-pass definition over a space-free piece yields what the map callback makes of that piece |
| BasicPrompt.CamelMatchesPass | basic_prompt.js:1-11 | `covertToCamelCase` is the one-pass definition: it drops each space, upper-cases the character right after a space, and lower-cases every other character |
| BasicPrompt.CamelDropsSpaces | basic_prompt.js:1-11 | the output holds no space and is shorter than the input by exactly the number of spaces |
| BasicPrompt.FirstPieceLowered | basic_prompt.js:5-6 | the output starts with the first piece, lower-cased |
| BasicPrompt.CamelOfSpaceFree | basic_prompt.js:3 | only the space separates: a string without spaces, hyphens and underscores included, is only lower-cased |
| BasicPrompt.LeadingSpaceCapitalises | basic_prompt.js:3-8 | a leading space leaves an empty first piece, so the first word is capitalised like a later one |
| BasicPrompt.SumSumSoo | basic_prompt.js:14 | `"sum sum soo"` gives `sumSumSoo` |
| BasicPrompt.LeadingSpace | basic_prompt.js:3-8 | `" sum"` gives `Sum` |
| BasicPrompt.DoubleSpace | basic_prompt.js:3-9 | `"a  b"` gives `aB`: the empty piece between the two spaces contributes nothing |
| BasicPrompt.EmptyString | basic_prompt.js:1-11 | the empty string converts to itself |

## Left out

- `toLowerCase` and `toUpperCase` are modelled on the ASCII letters only. JavaScript also maps non-ASCII letters, and some of those mappings change a string's length (`'İ'.toLowerCase()` is two code units). So the length results of `ChainPrompt.KebabPointwise` and `BasicPrompt.CamelDropsSpaces` hold of the JavaScript only for input whose letters are ASCII. This matters only for `toKebabCase` and `covertToCamelCase`, which do not validate their input. The refined utilities accept only ASCII letters, digits, white space, `-` and `_`, which case mapping leaves unchanged except for the letters.
- Strings are sequences of Unicode scalar values rather than UTF-16 code units. The model has no surrogate pairs.
- `toKebabCase` and `covertToCamelCase` take any value with a `split` method. A `String` object converts like its string, but `null`, `undefined` and values without `split` throw a `TypeError`. The model types their argument as a string, so this error path and the non-primitive string objects are not modelled.
- The `console.log` and `try`/`catch` demonstration lines are I/O. Their inputs and expected outputs are stated as the example lemmas.
- `backend/routes/api/comments.js` and `anythink-market-server/src/index.js` are not part of this model. They are HTTP and storage plumbing, outside the case-conversion utilities.
