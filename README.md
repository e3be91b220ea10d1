# utils.js helpers in Dafny

This project models the deterministic helpers of `function/utils.js`, the
general toolkit of a WhatsApp bot library, and proves what they promise:

- the array helpers: `shuffle`, `chunk`, `unique`, `flatten`, `groupBy` and `clamp`;
- the `retry` combinator and the `throttle` and `debounce` closures;
- the formatters: `toTimeString`, `formatNumber` and `timeAgo`;
- the text scanners: `parseMentions` and `isEmail`.

Modules:

- `Wrappers` (`wrappers.dfy`): `Option`.
- `Arith` (`arith.dfy`): `Math.min` and `Math.max` on integers, and monotonicity of multiplication, shared by the modules below.
- `Decimal` (`decimal.dfy`): `String(n)` for natural numbers, digit values and `padStart(w, '0')`.
- `Collections` (`collections.dfy`): the array helpers. `shuffle` is a method that permutes an `array` in place. `chunk` and `groupBy` are methods with loops, as in the source. `unique`, `flatten` and `clamp` are functions.
- `Timing` (`timing.dfy`): `retry` as a method over an injected outcome per call. `throttle` and `debounce` are classes whose fields are the closures' variables, with a `TimerFires` method for the expiry of the timer.
- `Formatting` (`formatting.dfy`): `toTimeString`, `formatNumber` (the regular expression replace, written position by position) and `timeAgo` over elapsed seconds.
- `Text` (`text.dfy`): the global match loop of `parseMentions`, `String.prototype.trim`, and the `isEmail` pattern.

Random draws, the clock and timers are inputs:

- `shuffle` takes the sequence of indices `Math.random` would have produced.
- `retry` takes the outcome of each call of `fn`.
- `timeAgo` takes the elapsed seconds.
- Timer expiry is a method call.

## Model

| member | source | states |
|---|---|---|
| Collections.Swap | function/utils.js:21 | the destructuring swap exchanges positions i and j and leaves every other position alone |
| Collections.SwapPermutes | function/utils.js:21 | one swap keeps the multiset of elements |
| Collections.ShuffleFrom | function/utils.js:19-22 | the loop from counter i down to 1 as a function on the array's contents; its own contract gives only the length, and `ShuffleFromPermutes` and `ShuffleSettles` characterise it |
| Collections.Shuffled | function/utils.js:18-24 | what `shuffle` leaves in the array for given draws; no contract of its own, characterised by `Shuffle`, `ShuffledIsPermutation`, `LastIsFirstDraw` and `ShuffleNoSwaps` |
| Collections.Shuffle | function/utils.js:18-24 | the array afterwards is the Fisher-Yates result for the given draws, and a permutation of the array before |
| Collections.ShuffleFromPermutes | function/utils.js:19-22 | the loop from any counter down to 1 keeps the multiset of elements |
| Collections.ShuffledIsPermutation | function/utils.js:18-24 | for every valid sequence of draws, the result has the input's length and the input's multiset of elements |
| Collections.ShuffleSettles | function/utils.js:19-21 | positions above the loop counter are never changed again |
| Collections.LastIsFirstDraw | function/utils.js:19-21 | the last element of the result is the element the first draw selected |
| Collections.ShuffleNoSwaps | function/utils.js:19-21 | when every draw is `j == i`, the array is unchanged |
| Collections.Chunk | function/utils.js:26-30 | the slices concatenate back to the input; all but the last have `size` items; the last is non-empty and at most `size` long; there are ceil(len/size) of them |
| Collections.CoveredIsProduct | function/utils.js:28 | after `count` steps of `i += size` the counter is count * size |
| Collections.ChunkCount | function/utils.js:28 | the number of loop iterations is the least count whose slices cover the input, i.e. ceil(n/size) |
| Collections.Unique | function/utils.js:115-117 | the result has no duplicates, holds exactly the elements of the input, and is no longer than it |
| Collections.UniqueKeepsFirstOccurrenceOrder | function/utils.js:115-117 | the elements come in the order of their first occurrence in the input, as a Set keeps insertion order |
| Collections.UniqueOfDistinct | function/utils.js:115-117 | an array without duplicates is its own `unique` |
| Collections.UniqueIdempotent | function/utils.js:115-117 | applying `unique` twice gives the same as once |
| Collections.UniqueExample | function/utils.js:115-117 | `unique([1, 1, 2])` is `[1, 2]` |
| Collections.Flatten | function/utils.js:119-121 | the result has as many values as there are non-array values at any depth |
| Collections.FlattenAppend | function/utils.js:120 | flattening a concatenation is the concatenation of the flattenings, so the leaves come out left to right |
| Collections.FlattenSingletons | function/utils.js:120 | a non-array element contributes itself and a nested array contributes its own flattening |
| Collections.FlattenMembers | function/utils.js:119-121 | a value is in the result exactly when it is a non-array value somewhere in the nested input |
| Collections.FlattenExample | function/utils.js:119-121 | `[1, [2, [3, 4]], 5]` flattens to `[1, 2, 3, 4, 5]` |
| Collections.GroupBy | function/utils.js:107-113 | the keys of the result are exactly the keys of the items; each bucket is non-empty and holds the items with that key in array order |
| Collections.Select | function/utils.js:108-112 | the bucket of key k: no longer than the input, and only items of the input with key k; `SelectAppend` and `SelectCovers` give its order and completeness |
| Collections.SelectAppend | function/utils.js:108-112 | the bucket of a concatenation is the bucket of the first part followed by that of the second |
| Collections.SelectCovers | function/utils.js:108-112 | every item lands in the bucket of its own key |
| Collections.Clamp | function/utils.js:103-105 | v inside the range is kept; v below an ordered range gives the lower bound; v at or above the upper bound gives the upper bound; crossed bounds always give the upper bound |
| Collections.ClampIdempotent | function/utils.js:103-105 | clamping a clamped value changes nothing |
| Timing.RetryDefaults | function/utils.js:123 | with the default arguments (three attempts, no delay) there are at most three calls and no sleep, and a value comes back exactly when one of the first three calls succeeds |
| Timing.Retry | function/utils.js:123-134 | calls stop at the first success, which is returned; otherwise after `times` failing calls the last error is thrown (`undefined` when no call was made); a sleep follows every failure when the delay is non-zero |
| Timing.Throttle.constructor | function/utils.js:40-41 | a new throttled function has no window open and has run nothing |
| Timing.Throttle.Call | function/utils.js:42-48 | a call runs `fn` exactly when no window is open and then opens one; a dropped call changes nothing |
| Timing.Throttle.TimerFires | function/utils.js:46 | the timer closes the window and runs nothing |
| Timing.ThrottleScenario | function/utils.js:40-49 | of calls before, inside and after one window, the first and the last run |
| Timing.Debounce.constructor | function/utils.js:32-33 | a new debounced function has no pending call |
| Timing.Debounce.Call | function/utils.js:34-37 | a call replaces any pending call by one with its own arguments and runs nothing |
| Timing.Debounce.TimerFires | function/utils.js:36 | the timer runs `fn` once, with the arguments of the latest call |
| Timing.DebounceScenario | function/utils.js:32-38 | two quick calls give one run with the second call's arguments |
| Decimal.NatToString | function/utils.js:198-200 | `String(n)` is a non-empty digit string whose value is n, with no leading zero, one digit long exactly below 10 |
| Decimal.PadStart | function/utils.js:198-200 | `padStart` gives at least the width and ends with the original string |
| Decimal.PadStartValue | function/utils.js:198-200 | padding with zeros keeps a digit string's value |
| Formatting.ToTimeString | function/utils.js:197-202 | `toTimeString(seconds)`; no contract of its own, characterised by `ToTimeStringFields` and `ToTimeStringRoundTrip` |
| Formatting.ClockArithmetic | function/utils.js:198-200 | hours * 3600 + minutes * 60 + seconds is the input |
| Formatting.ClockFields | function/utils.js:198-201 | `h:m:s` with minutes and seconds below 60 reads back as those three numbers, with two-digit minute and second fields |
| Formatting.ToTimeStringFields | function/utils.js:197-202 | the output reads as the hours (two digits or more), the minutes and the seconds (two digits, below 60) of the input |
| Formatting.ParseClockOf | function/utils.js:197-202 | a text that reads as the hours, minutes and seconds of n parses back to n |
| Formatting.ToTimeStringRoundTrip | function/utils.js:197-202 | reading the output back as `HH:MM:SS` gives the input, so no information is lost |
| Formatting.ToTimeStringExample | function/utils.js:197-202 | 3661 gives `"01:01:01"` |
| Formatting.Marks | function/utils.js:100 | the positions where `\B(?=(\d{3})+(?!\d))` matches; its own contract gives one mark per character, and `MarksOfDigits` and `SeparatorAtDigits` say which are set |
| Formatting.InsertSeparators | function/utils.js:100 | the global replace with '.'; no contract of its own, characterised by `InsertSeparatorsGroups`, `InsertSeparatorsShort`, `SeparateSplitsLastGroup` and `WellGroupedIsInsertSeparators` |
| Formatting.FormatNumber | function/utils.js:99-101 | `formatNumber(n)`; no contract of its own, characterised by `FormatNumberDigits` and `FormatNumberGroups` |
| Formatting.SeparatorAtDigits | function/utils.js:100 | on a digit string the pattern matches exactly at the inner positions whose distance to the end is a multiple of three |
| Formatting.TriplesAheadDigits | function/utils.js:100 | the lookahead `(\d{3})+(?!\d)` holds on a digit string exactly where a multiple of three digits remains |
| Formatting.MarksOfDigits | function/utils.js:100 | the match positions of a digit string are the every-third-from-the-right positions |
| Formatting.InterleaveAgrees | function/utils.js:100 | the replaced prefix depends only on the characters and matches in that prefix |
| Formatting.InterleaveUnmarked | function/utils.js:100 | without matches the replace copies its input |
| Formatting.InterleaveDropsOnlyDots | function/utils.js:100 | deleting the '.' characters from the replaced digit string gives back the digits |
| Formatting.FormatNumberDigits | function/utils.js:99-101 | removing the separators from `formatNumber(n)` gives the decimal digits of n |
| Formatting.InsertSeparatorsShort | function/utils.js:100 | one to three digits get no separator |
| Formatting.LastGroupSeparated | function/utils.js:100 | where only the third-last position matches, the last three characters form one group behind a single '.' |
| Formatting.SeparateSplitsLastGroup | function/utils.js:100 | for four or more digits the output is the output for all but the last three digits, a '.', and those three |
| Formatting.InsertSeparatorsGroups | function/utils.js:100 | every non-empty digit string comes out as a first group of 1 to 3 digits followed by '.'-separated groups of exactly 3 |
| Formatting.FormatNumberGroups | function/utils.js:99-101 | `formatNumber(n)` is grouped that way |
| Formatting.WellGroupedDigits | function/utils.js:100 | a well-grouped string holds at least one digit and only digits apart from its separators |
| Formatting.WellGroupedIsInsertSeparators | function/utils.js:100 | a well-grouped string is exactly the replace's output for its own digits, so grouping determines the output |
| Formatting.DigitsOf1234567 | function/utils.js:100 | `String(1234567)` is `"1234567"` |
| Formatting.SeparatorsOfExample | function/utils.js:99-101 | `"1.234.567"` without its separators is `"1234567"` |
| Formatting.GroupingOfExample | function/utils.js:99-101 | `"1.234.567"` is well grouped |
| Formatting.FormatNumberExample | function/utils.js:99-101 | 1234567 gives `"1.234.567"` |
| Formatting.TimeAgo | function/utils.js:181-195 | `timeAgo` over elapsed seconds; no contract of its own, characterised by `FirstUnitOfIntervals` and `TimeAgoLabels` |
| Formatting.FirstUnitOfIntervals | function/utils.js:183-193 | walking the unit table picks the largest unit of which at least one whole fits, or none under a minute |
| Formatting.TimeAgoLabels | function/utils.js:181-195 | the label counts whole units of the largest unit that fits (year, month, day, hour, minute), and is "baru saja" under a minute or for a future date |
| Text.LeadingDigits | function/utils.js:205 | the greedy `\d{0,cap}` takes only digits, no more than the cap, and stops only at the cap, the end or a non-digit |
| Text.ParseMentions | function/utils.js:204-206 | `parseMentions(text)`; its own contract is only a shape (every result is 5 to 16 digits with the suffix, at most one result per six characters of text), and `ParseMentionsAtStarts`, `MentionStartsLocated` and `MentionFound` state what it returns |
| Text.MentionLength | function/utils.js:205 | the length of the match at the start of the text; its own contract is only a shape (0, or 5 to 16 digits after the first character), and `MentionLengthIsGreedyMatch` states the match |
| Text.MentionLengthIsGreedyMatch | function/utils.js:205 | a match at the start of the text needs an '@'; it takes 16 digits or stops at the end or a non-digit; an '@' followed by five digits always matches |
| Text.ScanLocated | function/utils.js:205 | the search from position i finds only positions from i on that hold a match, in text order, each match ending before the next begins |
| Text.MentionStartsLocated | function/utils.js:205 | every reported position holds an '@' match, and the matches are in text order and do not overlap |
| Text.ScanReported | function/utils.js:204-206 | the results for the text from position i are, one for one, the number found at each match position with the suffix appended |
| Text.ParseMentionsAtStarts | function/utils.js:204-206 | for every text, the k-th result is the number of the k-th match, read from the text right after its '@', with the WhatsApp suffix |
| Text.ScanCovering | function/utils.js:205 | every place where a match could start, from position i on, lies inside a match the search finds |
| Text.MentionStartsComplete | function/utils.js:205 | nothing is missed: every position where a match could start is reported or lies inside a reported match |
| Text.MentionFound | function/utils.js:204-206 | every '@' followed by at least five digits is the start of a reported match, since a match holds no second '@' |
| Text.LeadingDigitsOfNumber | function/utils.js:205 | a digit run ending before a non-digit is taken whole |
| Text.MentionLengthOfNumber | function/utils.js:205 | "@" followed by a 5-to-16-digit number and a non-digit matches exactly that number |
| Text.ParseMentionsRoundTrip | function/utils.js:204-206 | numbers written as "@number " are all found, in order, each with the suffix, and nothing else is |
| Text.LeadingDigitsExact | function/utils.js:205 | the greedy run has length k when k digits are followed by the cap, the end or a non-digit |
| Text.ParseMentionsTakesAtMostSixteen | function/utils.js:205 | an '@' with sixteen digits or more yields the first sixteen, and the search goes on right after them |
| Text.ShortRunIsNoMention | function/utils.js:205 | an '@' with fewer than five digits is no match |
| Text.ParseMentionsSkipsShortRuns | function/utils.js:205 | after such an '@' the search goes on at the next character |
| Text.TrimStart | function/utils.js:89 | leading whitespace goes, and what remains starts with a non-space |
| Text.TrimEnd | function/utils.js:89 | trailing whitespace goes, and what remains ends with a non-space |
| Text.Trim | function/utils.js:89 | the result is the input with its leading and trailing whitespace removed: everything cut off is whitespace, and the kept middle neither starts nor ends with whitespace |
| Text.IndexOf | function/utils.js:89 | the first occurrence of a character, or the length when it does not occur |
| Text.EmailShapeMatches | function/utils.js:88-90 | a string of the checked shape splits as field '@' field '.' field of the pattern |
| Text.FieldChars | function/utils.js:89 | a `[^\s@]+` field holds no whitespace and no '@' |
| Text.SplitHasEmailShape | function/utils.js:88-90 | any split as field '@' field '.' field has the checked shape |
| Text.MatchesEmailShape | function/utils.js:88-90 | a string the pattern matches has the checked shape |
| Text.IsEmail | function/utils.js:88-90 | `isEmail(v)`; no contract of its own, characterised by `IsEmailMatchesPattern` |
| Text.IsEmailMatchesPattern | function/utils.js:88-90 | `isEmail(v)` holds exactly when `^[^\s@]+@[^\s@]+\.[^\s@]+$` matches the trimmed v |

## Left out

- `readJSON`, `writeJSON`, `streamToBuffer`, `downloadFile`, `getBufferFromUrl` and `hashFileSha256` are file, network and stream I/O. `writeJSON` and `downloadFile` would also fail on the undefined `path` (line 11 imports it as `patg`).
- `execCmd` runs a child process.
- `uuid`, `hashSha256`, `hmacSha256` and `generateMessageID` wrap Node's crypto, the clock and a random source.
- `gzipCompress` and `gzipDecompress` wrap zlib.
- `formatBytes` is floating point (`Math.log`, `Math.pow`, `toFixed`).
- `isUrl` delegates to the WHATWG URL parser.
- `systemInfo` queries the operating system.
- `getRandom` is a random pick; `shuffle` takes its random indices as a parameter instead of calling `Math.random`.
- `sleep` is not modelled: `Timing.Retry` counts the sleeps instead of waiting, and `delayMs` counts as set when it is non-zero (JavaScript truthiness, with NaN not modelled).
- Timing.Retry: `fn` is modelled as a function from the attempt number to its outcome, not as a promise-returning call. `times` is an integer, so non-integer or non-number values of `times` are not modelled. The defaults `times = 3` and `delayMs = 0` are default parameters.
- Timing.Throttle and Timing.Debounce: the `limit` and `delay` values and real timers are not modelled. A timer's expiry is a `TimerFires` call, which requires a pending timer. `Throttle` records the arguments `fn` ran with instead of calling it, and so does `Debounce`.
- Timing.Throttle.Call: assumes `fn` returns. In the source `fn(...args)` runs before `inThrottle = true`, so a throwing `fn` leaves the window closed and sets no timer. The model always opens the window. The same holds for an exception thrown by the timer callback of `Debounce`.
- Collections.Shuffle: the draws are given as `picks`, one per loop counter, each at most the counter. The uniform distribution of `Math.random` is not modelled.
- Collections.Chunk: requires `size > 0`. With `size <= 0` the source loop never ends on a non-empty array. On an empty array it ends at once with `[]`, and that case is not modelled either. Fractional sizes, which slice at non-integer indices, are not modelled.
- Collections.GroupBy: models the key-function variant only. It also leaves out the key-field variant (`item[key]`), the coercion of keys to property-name strings and the insertion order of object keys. The result is a map from key to bucket. The accumulator in the source is a plain `{}`: a key that names an inherited `Object.prototype` member (`"constructor"`, `"toString"`, `"__proto__"`, …) finds a truthy non-array there, and `.push` throws a TypeError. The model returns a bucket for such a key instead.
- Collections.Unique: elements are compared with Dafny equality, so the SameValueZero treatment of NaN and of -0 by `Set` is not modelled.
- Collections.Flatten: JavaScript values are modelled by the `Item` datatype (a value or a nested array), so holes in sparse arrays are not modelled.
- Collections.Clamp: works on integers. NaN and non-integer numbers are not modelled.
- Formatting.ToTimeString: takes a natural number of seconds and is exact for inputs up to 2^53. Beyond that, JavaScript numbers are doubles, so `seconds / 3600` rounds and `String` prints rounded digits. Fractional inputs are not modelled: every field goes through `Math.floor`, so a non-negative fractional x gives the output for `Math.floor(x)` (61.5 gives `"00:01:01"`). Negative inputs are not modelled either: `Math.floor` and `%` then give negative fields, as in `"-1:-1:-1"` for -1.
- Formatting.FormatNumber: takes a natural number and is exact for n up to 2^53. Above that a double does not hold every integer, and `String(n)` prints the shortest digits that round-trip: `String(2**60)` is `"1152921504606847000"`, not the exact digits. That, together with negative numbers, fractions, exponent notation (from 10^21) and non-number inputs, is not modelled. The replace itself is modelled on any string.
- Formatting.TimeAgo: takes the elapsed whole seconds. Reading `Date.now()` and parsing `new Date(input)` are not modelled, and neither is an invalid date (NaN gives "baru saja").
- Text.IsEmail: takes a string, so `String(v)` of other values is not modelled. `\s` and `trim` share the JavaScript whitespace set (including the Unicode space separators), which is written out explicitly.
- Text.ParseMentions: takes a string. The default argument `''` is the empty string, which gives no mentions, and non-string arguments are not modelled.
- Decimal.NatToString: is `String(n)` for n up to 2^53 only. Beyond that a double no longer holds every integer, and `String` prints the shortest digits that round-trip.
