# x: string helpers, clamp, Result and Struct in Dafny

This project models the core of the single-header C++ utility library `x`
(`x.hpp`):

- **String helpers.** `split`, `join`, `trim`, `replace`, `reverse`,
  `upper`, `lower`, `startWith`, `endWith`, `contain`, `is_digit`,
  `same_nocase` and `file_extension`.
- **`clamp`.** Over integers.
- **`Result`.** A status code with a message and three type-erased data
  slots.
- **`Struct`.** A string-keyed table of type-erased values.

Every explicit loop in the source becomes a Dafny `method` with loop invariants.
Each such method is proved equal to a specification function, recursive
(`split`, `join`, `replace`, the `Struct` initializer list) or quantified
(`is_digit`), and lemmas prove what that function promises. Pure one-liners become functions
or predicates whose `ensures` clauses characterise the result.
`Result` and `Struct` update their members in place, so they are classes
whose methods carry `modifies this` and state the whole new state.

Modules, one per file:

| file | module | models |
|---|---|---|
| `wrappers.dfy` | `Wrappers` | `Option` |
| `chars.dfy` | `Chars` | C-locale `isspace`, `isdigit`, `toupper`, `tolower` |
| `string_search.dfy` | `StringSearch` | `std::string::find`, `startWith`, `endWith`, `contain` |
| `string_ops.dfy` | `StringOps` | `join`, `split`, `replace`, `trim`, `is_digit` |
| `string_case.dfy` | `StringCase` | `reverse`, `upper`, `lower`, `same_nocase` |
| `filesystem.dfy` | `FileSystem` | `find_last_of`, `file_extension` |
| `utilities.dfy` | `Utilities` | `clamp` on integers |
| `any_value.dfy` | `AnyValue` | `std::any`, `std::any_cast`, the thrown exceptions |
| `struct.dfy` | `StructType` | class `Struct` |
| `result.dfy` | `ResultType` | class `Result` |

Conventions:

- A Dafny `char` stands for one byte of a `std::string`.
- `std::string::npos` is `None`.
- A thrown exception is the `Throws` case of `Outcome`.
- A `std::any` is an `Any`, that is an `Option<Value>`; an empty one is `None`.
- The template parameter `T` of `get<T>`, `dat1<T>` and the other
  accessors becomes an explicit `TypeTag` argument.

## Model

| member | source | states |
|---|---|---|
| Chars.ToUpper | x.hpp:206-209 | `::toupper` maps exactly the lower-case ASCII letters, each to the upper-case letter 32 below it; every other character is kept; no lower-case letter is left |
| Chars.ToLower | x.hpp:211-214 | `::tolower` maps exactly the upper-case ASCII letters, each to the lower-case letter 32 above it; every other character is kept; no upper-case letter is left |
| Chars.IsSpace | x.hpp:187-188 | `::isspace` in the C locale holds for space, \t, \n, \v, \f and \r; no white-space character is a digit or a letter, and the case mappings keep it |
| Chars.IsAsciiDigit | x.hpp:243 | `std::isdigit` holds for '0' to '9' only; no digit is a letter, and the case mappings keep it |
| Chars.FoldIgnoresUpper | x.hpp:253-257 | lower-casing a character after upper-casing it gives its plain lower-case form, and the other way round |
| StringSearch.Find | x.hpp:161-165 | a position found by `find(pat, from)` is at or after `from`, and the pattern fits in the string there |
| StringSearch.FindFirst | x.hpp:194 | `find` returns the first occurrence at or after `from`; `npos` means there is none at or after `from` |
| StringSearch.FindShift | x.hpp:194-196 | searching two strings that agree from two offsets on gives the same answer, shifted by the offsets' difference; this is why searching the edited string from `pos` equals searching the original from the matching offset |
| StringSearch.Contain | x.hpp:225-227 | `contain(sv, sub)` holds exactly when `sub` occurs at some index of `sv` |
| StringSearch.StartWith | x.hpp:216-218 | comparing `s.substr(0, prefix.size())` with `prefix` holds exactly when `prefix` is a prefix of `s`, including when `prefix` is longer than `s` |
| StringSearch.EndWith | x.hpp:220-223 | `endWith(s, suffix)` holds exactly when `s` is some string followed by `suffix` |
| StringSearch.PrefixSuffixContained | x.hpp:216-227 | a string that `s` starts with or ends with is contained in `s` |
| StringOps.JoinedSnoc | x.hpp:179-182 | each loop turn of `join` appends one delimiter and the next part to the joined prefix |
| StringOps.JoinedLength | x.hpp:172-184 | the joined string is as long as all parts together plus one delimiter per gap |
| StringOps.JoinedEnds | x.hpp:172-184 | the joined string starts with the first part and ends with the last |
| StringOps.Join | x.hpp:172-184 | the loop builds the parts in order, separated by the delimiter; no parts give "" |
| StringOps.Split | x.hpp:157-170 | the loop's result equals the specification: nothing for an empty string, an empty delimiter or no match, otherwise the text between left-to-right matches |
| StringOps.SplitFromCount | x.hpp:162-168 | a scan produces one more piece than the matches it finds |
| StringOps.SplitFromAvoids | x.hpp:162-168 | no piece of a scan contains the delimiter |
| StringOps.SplitFromJoined | x.hpp:162-168 | joining a scan's pieces with the delimiter gives back the scanned text |
| StringOps.PiecesEmpty | x.hpp:158-167 | `split` returns nothing exactly when the string is empty, the delimiter is empty, or the delimiter does not occur |
| StringOps.SplitProperties | x.hpp:157-170 | when `split` returns pieces, there is one more piece than matches (so at least two), no piece contains the delimiter, and `join(split(s, d), d) == s` |
| StringOps.SplitAtEachOccurrence | test/test_string_ops.cpp:12-18 | the two-character-delimiter case of the test, on the model's own shorter literal: "a::b::c" splits into "a", "b" and "c" |
| StringOps.SplitWithoutOccurrence | test/test_string_ops.cpp:26-31 | a string without the delimiter, and the empty string, give no pieces |
| StringOps.Replace | x.hpp:192-199 | the in-place edit loop, which resumes the search after each inserted text, returns the left-to-right non-overlapping replacement of the original text |
| StringOps.ReplaceStep | x.hpp:194-196 | one loop turn: the edited text is still the finished prefix followed by an untouched suffix of the original, and the final result does not change |
| StringOps.ReplaceDone | x.hpp:194-198 | when no match is left after the finished prefix, the text is the final result |
| StringOps.ReplaceStepText | x.hpp:195 | `s.replace(pos, old_sub.length(), new_sub)` on the prefix-plus-suffix text gives the longer prefix followed by the suffix after the match |
| StringOps.ReplacedFromMatch | x.hpp:194-196 | a match contributes the text before it and `new_sub`, and the scan resumes after the match |
| StringOps.ReplacedFromJoined | x.hpp:192-199 | replacing from an offset equals joining that offset's split pieces with `new_sub` |
| StringOps.ReplaceIsJoinOfSplit | x.hpp:157-199 | `replace(s, o, n)` is `join(split(s, o), n)`, and is `s` itself when `split` gives nothing |
| StringOps.ReplaceWithItself | x.hpp:192-199 | replacing a pattern by itself returns the string unchanged |
| StringOps.ReplacedFromLength | x.hpp:192-199 | every match changes the length by `|new_sub| - |old_sub|` |
| StringOps.ReplacedLength | x.hpp:192-199 | the result's length is the input length plus the match count times `|new_sub| - |old_sub|` |
| StringOps.ReplaceEveryMatch | test/test_string_ops.cpp:46 | "banana" with "na" replaced by "no" gives "banono" |
| StringOps.ReplaceSkipsInsertedText | x.hpp:196 | inserted text that contains `old_sub` is not searched again: "aa" with "a" replaced by "aa" gives "aaaa" |
| StringOps.ReplaceIgnoresNewOccurrences | x.hpp:194-196 | an occurrence that only forms across an insertion is not matched: "aab" with "ab" replaced by "b" gives "ab" |
| StringOps.LeadingSpaces | x.hpp:187 | the forward `find_if_not(isspace)` stops at the first non-space character, after only white space |
| StringOps.TrailingSpaces | x.hpp:188 | the reverse `find_if_not(isspace)` skips exactly the trailing white space |
| StringOps.TrimRange | x.hpp:187-189 | the two iterator offsets lie within the string |
| StringOps.TrimRangeOrdered | x.hpp:187-189 | the offsets are in order exactly when the string is empty or holds a non-space, and strictly in order when it holds one |
| StringOps.TrimRangeInverted | x.hpp:187-189 | for a non-empty string of white space only, the range is `[end, begin)`, i.e. inverted |
| StringOps.SpacesOnly | x.hpp:187-188 | on white space only, both scans run through the whole string |
| StringOps.Trim | x.hpp:186-190 | the result is empty exactly when the string has no non-space character; otherwise it starts and ends with non-space characters, and it is a window of `s` with only white space outside it |
| StringOps.TrimIdempotent | x.hpp:186-190 | trimming twice is trimming once |
| StringOps.TrimTabs | test/test_string_ops.cpp:39 | tabs on both sides are removed |
| StringOps.TrimKeepsInnerSpace | test/test_string_ops.cpp:40 | the case of the test on the model's own shorter literal: in " a b " the outer spaces are removed and the inner space is kept |
| StringOps.TrimOfEmpty | test/test_string_ops.cpp:41 | the empty string trims to "" |
| StringOps.TrimOfSpaces | x.hpp:186-190 | a string of white space only trims to ""; this is the corrected behaviour, since the code as written builds an inverted range there (see Findings and the `StringOps.Trim` line under Left out) |
| StringOps.IsDigit | x.hpp:229-251 | the scan with the decimal-point flag accepts exactly a non-empty string that, after one optional leading '-', has only ASCII digits and at most one '.' |
| StringOps.LoneSignOrPointAccepted | x.hpp:229-251 | as written, "-", "." and "-." are accepted, because no digit is required |
| StringOps.IntegerAndDecimalAccepted | test/test_string_ops.cpp:88-89 | "-123" and "1.23" are accepted |
| StringOps.SecondPointRefused | x.hpp:240-241 | a second '.' is refused |
| StringOps.OtherCharactersRefused | test/test_string_ops.cpp:85-87 | "", " " and "123a45" are refused |
| StringOps.SecondSignRefused | x.hpp:232-245 | only one leading '-' is erased, so "--1" and "-1-" are refused |
| StringCase.Reverse | x.hpp:201-204 | the result has the same length, with character `i` taken from position `|s|-1-i` |
| StringCase.ReverseInvolution | x.hpp:201-204 | reversing twice gives the original string |
| StringCase.EndWithIsReversedStartWith | x.hpp:201-223 | `endWith(s, x)` holds exactly when `startWith(reverse(s), reverse(x))` does |
| StringCase.Upper | x.hpp:206-209 | same length, each character passed through `toupper` |
| StringCase.Lower | x.hpp:211-214 | same length, each character passed through `tolower` |
| StringCase.UpperProperties | x.hpp:206-209 | no lower-case letter remains, other characters are kept, and `upper` is idempotent |
| StringCase.LowerProperties | x.hpp:211-214 | no upper-case letter remains, other characters are kept, and `lower` is idempotent |
| StringCase.CaseRoundTrip | x.hpp:206-214 | `lower(upper(s)) == lower(s)` and `upper(lower(s)) == upper(s)` |
| StringCase.FoldedEqual | x.hpp:255-256 | `std::equal` under `tolower` holds exactly when every pair of characters agrees after `tolower` |
| StringCase.SameNoCase | x.hpp:253-257 | `same_nocase(s1, s2)` holds exactly when `lower(s1) == lower(s2)`, which covers the length test |
| StringCase.SameNoCaseEquivalence | x.hpp:253-257 | case-insensitive equality is reflexive, symmetric and transitive, and relates every string to its `upper` |
| FileSystem.FindLastOf | x.hpp:265 | `find_last_of` returns the index of the last occurrence, or `npos` when the character does not occur |
| FileSystem.FileExtension | x.hpp:264-270 | with no '.' the result is ""; otherwise it is exactly the text after the last '.'; it never contains a '.' |
| FileSystem.ExtensionAfterLastDot | x.hpp:264-270 | the extension of `base + "." + ext` is `ext` whenever `ext` has no '.' |
| Utilities.Clamp | x.hpp:395-398 | with `min <= max` the result lies in `[min, max]` and is `value` when `value` is already there; below `min` it is `min`; above `max` and not below `min` it is `max` |
| Utilities.ClampProperties | x.hpp:395-398 | for `min <= max`, clamping is idempotent and monotone |
| AnyValue.AnyCast | x.hpp:476 | `any_cast<T>` succeeds exactly when the `any` holds a value of type `T`, and returns that value; otherwise it throws `bad_any_cast` |
| StructType.PairsToMapKeys | x.hpp:516-519 | the table built from an initializer list has exactly the keys of its pairs |
| StructType.PairsToMapLastWins | x.hpp:516-519 | each key maps to the value of its last pair |
| StructType.Struct.constructor | x.hpp:510 | a default `Struct` is empty |
| StructType.Struct.FromPairs | x.hpp:516-519 | the loop stores the pairs in order, so later pairs overwrite earlier ones; a pair may carry an empty `std::any` |
| StructType.Struct.Copy | x.hpp:513-514 | the copy has the same entries |
| StructType.Struct.Assign | x.hpp:521-526 | copy assignment takes `other`'s entries, and self-assignment changes nothing |
| StructType.Struct.IsEmpty | x.hpp:560-562 | `empty()` holds exactly when `size() == 0`, and then no key is present |
| StructType.Struct.Get | x.hpp:543-550 | a missing key throws `out_of_range` (not caught by the handler); a present value of the asked type is returned, and only then does `get` succeed; an empty `std::any` or any other type throws `runtime_error("Type mismatch for key: " + key)` |
| StructType.Struct.Add | x.hpp:538-541 | inserts or overwrites one entry and keeps all others; the key is then present; a value reads back under its own type, and an empty `std::any` reads back as a type mismatch under every type; the size grows only for a new key |
| StructType.Struct.Remove | x.hpp:556-558 | erases only `key`; a missing key is a no-op; the size drops by one only when the key was present |
| StructType.Struct.Clear | x.hpp:564-566 | the table becomes empty with size 0 |
| StructType.HasIffFound | x.hpp:552-554 | `has(key)` holds exactly when `get` does not throw `out_of_range` for that key, whatever the type asked for |
| StructType.SizeCountsKeys | x.hpp:568-570 | `size()` is zero exactly when no key is present, and one more than the size of the table without any present key |
| StructType.AddFour | test/test_struct.cpp:7-13 | four `add` calls build exactly the table of the four entries |
| StructType.GetFour | test/test_struct.cpp:15-18 | each of the four entries reads back under its own type |
| StructType.RemoveThenCopy | test/test_struct.cpp:20-29 | after `remove("int_val")` that key is gone and three entries remain; the copy has exactly the same entries, whose keys are "str_val", "float_val" and "bool_val" |
| StructType.InitializerList | test/test_struct.cpp:40-48 | an initializer list of three pairs gives a table of size 3 whose values read back under their own types |
| StructType.TypeConversion | test/test_struct.cpp:51-65 | values read back under their own type, and asking a string for `bool` or an integer for a vector throws `runtime_error` naming the key |
| StructType.AddEmptyAny | x.hpp:538-550 | an empty `std::any` added under a key makes the key present, and reading it throws the type-mismatch `runtime_error`, not `out_of_range` |
| ResultType.Result.constructor | x.hpp:451 | code 0xFFFFFFFF, empty message, empty slots; not ok |
| ResultType.Result.WithCode | x.hpp:452 | the given code and message with empty slots; ok exactly when the code is 0 |
| ResultType.Result.Copy | x.hpp:449-505 | the implicit copy constructor copies every field |
| ResultType.Result.Assign | x.hpp:449-505 | the implicit copy assignment copies every field |
| ResultType.Result.Ok | x.hpp:454-458 | `ok()` and `operator bool` are false for a `Result` that still carries the default code |
| ResultType.Result.SetResult | x.hpp:460-467 | stores the three arguments as given, an empty `std::any` included (the last two default to `nullptr`), sets code 0 and so ok, and keeps the message |
| ResultType.Result.SetError | x.hpp:469-472 | sets code and message (message defaulting to ""), ok exactly when the code is 0, and keeps the data |
| ResultType.Result.Dat1 | x.hpp:474-477 | the first slot as the asked type, or `bad_any_cast` when it is empty or of another type |
| ResultType.Result.Dat2 | x.hpp:479-482 | the same for the second slot |
| ResultType.Result.Dat3 | x.hpp:484-487 | the same for the third slot |
| ResultType.Result.SetData | x.hpp:489-495 | a fresh `Result` that is ok, has an empty message, and holds the three arguments as given |
| ResultType.Result.OK | x.hpp:497 | a fresh `Result` with code 0, an empty message and empty slots |
| ResultType.DefaultConstructor | test/test_result.cpp:6-12 | a default `Result` is not ok, with code 0xFFFFFFFF and an empty message |
| ResultType.ParameterizedConstructor | test/test_result.cpp:14-26 | code 0 gives an ok `Result`, code 404 one that is not ok; both keep their message |
| ResultType.SetResultBasic | test/test_result.cpp:28-34 | after `setResult(42)` the `Result` is ok with code 0, and the first slot reads back as 42 |
| ResultType.SetResultMultiple | test/test_result.cpp:36-43 | three values stored by `setResult` read back under their own types |
| ResultType.DataAccess | test/test_result.cpp:45-55 | a vector, a string and `false` read back whole |
| ResultType.EdgeCases | test/test_result.cpp:57-65 | code 0 with an empty message is ok, and a stored `nullptr` reads back as `nullptr` |
| ResultType.InvalidCast | test/test_result.cpp:67-74 | after `setResult(42)`, reading slot 1 as a string, slot 2 as an integer or slot 3 as a `double` throws `bad_any_cast` |
| ResultType.SetResultEmpty | x.hpp:460-467 | `setResult` with an empty `std::any` leaves slot 1 empty, so `dat1` throws `bad_any_cast` for every type, while the `Result` is ok |
| ResultType.SetErrorKeepsData | x.hpp:469-472 | `setError` after `setResult` makes the `Result` not ok and leaves its data readable |

## Findings

| source | as written | input that shows it | evidently intended | confidence | as-written member | corrected member |
|---|---|---|---|---|---|---|
| x.hpp:186-190 | For a non-empty string of white space only, the forward search stops at `end()` and the reverse search at `begin()`, so the result is built from the inverted range `[end(), begin())`, which is undefined behaviour | `trim("  ")` | the empty string | high; not executed | StringOps.TrimRangeInverted | StringOps.Trim |

## Left out

- `Timer` (x.hpp:400-445): threads, a mutex and a condition variable. Concurrency is not modelled.
- Filesystem helpers other than `file_extension`, `Time`, formatting and printing, random numbers, the clock, `sleep` and the thread id: these are I/O, time or randomness.
- The preprocessor macros.
- `Struct` and `Result` move construction and move assignment: moved-from states are not modelled.
- `clamp` on floating point: only the integer instance is modelled.
- `Struct` under concurrent use: the source has no locking, and the model is sequential.
- `AnyValue.AnyCast`: `std::any_cast` distinguishes every C++ type. The model has one integer type, one string type, `bool`, `double`, `nullptr_t` and a vector of integers. So a narrowing mismatch such as storing an `int` and asking for a `long` is not modelled, and neither are values that hold a `Result` or other class types.
- `StringOps.Replace`: requires a non-empty `oldSub`. With an empty `old_sub` the source loop never terminates, because the empty string is found at every position.
- `StringOps.Trim`: for a non-empty all-white-space string it returns "", the evidently intended result. The code as written has undefined behaviour there (see Findings).
- Non-ASCII bytes: a `char` stands for a byte. `trim`, `upper`, `lower` and `same_nocase` pass a plain `char` to `::isspace`, `::toupper` and `::tolower` (x.hpp:187-188, 207, 212, 256). Where `char` is signed, a byte of 0x80 or above arrives there as a negative value other than EOF, which is undefined behaviour. The model instead gives the C-locale answer for the byte's unsigned value: no character class, and unchanged by the case mappings. Only `is_digit` guards against such bytes (`c <= -1` at x.hpp:243), and the model follows that guard. Multi-byte encodings are not interpreted.
- `is_digit`'s `is_negative` flag is set but never read, so it is not modelled. The `try`/`catch` around its loop catches nothing the loop can throw.
- `Result`'s `code()` and `message()` accessors are the fields `code` and `msg`, read directly.
