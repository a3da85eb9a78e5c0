# FixedString in Dafny

A model of `FixedString<c_storage_size>` from `FixedString.h`. It is a string
class of fixed capacity that never allocates. It keeps a NUL-terminated text
in an array of `c_storage_size - 1` bytes, together with a cached length, and
edits that array in place.

The storage size `N` is a constructor parameter, with `4 <= N <= 256` and
`N % 4 == 0`. The capacity is `N - 2`. The class `FixedStrings.FixedString`
keeps the source's state: `str` is an `array<char>` of `N - 1` bytes, and
`len` is the cached length. The class invariant `Valid()` says three things:

- the length is at most the capacity;
- `str[len]` is the terminator;
- the bytes before it are NUL-free ASCII.

Every editing method is proved to maintain `Valid()`. Each one is also proved
to leave exactly a text described by a pure function in `Edits`, `Chars` or
`Numeric`, or by a slice of the data it was given. The lemmas about those
functions state what the source promises.

Modules:

- `Chars`: the `<ctype.h>` classes in the "C" locale (`isspace`, `toupper`,
  `tolower`).
- `CStrings`: `strncmp`, `strstr`, `strchr` and `strrchr` on NUL-free text.
- `Search`: the read-only queries, as functions of the contents.
- `Compare`: `compareTo` and `equals`.
- `Numeric`: integer rendering (`std::to_chars`) and parsing (`atol`).
- `Edits`: what every edit does to the text.
- `FixedStrings`: the class itself. It also holds the in-place byte moves
  that `memmove` and `memcpy` perform, and the fill and walk loops.

Behaviours of `FixedString.h` that the model keeps as they are:

- Searches return the `int` value -1, not `npos` (lines 339, 351 and 360).
- `indexOf('\0')` returns the length, because `strchr` finds the terminator (line 340).
- `set_len` ignores a length over the capacity instead of clamping it (lines 570-571).
- The examples use `N = 8`, which gives a capacity of 6.

## Model

| member | source | states |
|---|---|---|
| Chars.IsSpace | FixedString.h:478-480 | isspace in the "C" locale: blank, tab, newline, vertical tab, form feed and carriage return |
| Chars.ToUpper | FixedString.h:467-471 | toupper turns a lower-case letter into the capital at the same place in the alphabet, leaves no lower-case letter, keeps bytes ASCII and changes nothing but letters |
| Chars.ToLower | FixedString.h:462-466 | tolower turns a capital into the lower-case letter at the same place in the alphabet, leaves no capital, keeps bytes ASCII and changes nothing but letters |
| Chars.CaseRoundTrip | FixedString.h:462-471 | tolower undoes toupper on lower-case letters and toupper undoes tolower on capitals; a letter's two cases differ |
| Chars.UpperText | FixedString.h:467-471 | upper-casing a text keeps its length and NUL-freedom and applies toupper to each byte |
| Chars.LowerText | FixedString.h:462-466 | lower-casing a text keeps its length and NUL-freedom and applies tolower to each byte |
| Chars.CaseConversionIdempotent | FixedString.h:462-471 | converting case twice is converting once; no letter of the other case remains |
| Chars.UpperOfLower | FixedString.h:594-597 | upper-casing forgets case: a text and its lower-cased form compare equal ignoring case |
| CStrings.Strncmp | FixedString.h:250 | strncmp: the difference of the first differing bytes among the first n, with the end of a text read as the terminator; 0 when there is none. StrncmpSign gives its meaning |
| CStrings.LexLess | FixedString.h:252-260 | the lexicographic order behind the comparison operators, in which a proper prefix sorts first |
| CStrings.StrncmpSign | FixedString.h:250 | the sign of strncmp over n bytes is zero iff the n-byte prefixes are equal, and otherwise is their lexicographic order |
| CStrings.LexLessTotal | FixedString.h:252-260 | the order used by the comparison operators is total, irreflexive and asymmetric |
| CStrings.LexLessTransitive | FixedString.h:252-260 | that order is transitive |
| CStrings.FindFrom | FixedString.h:352 | strstr from i gives -1 when no occurrence starts at or after i, and otherwise the first such occurrence |
| CStrings.MatchOne | FixedString.h:340 | a one-byte pattern matches exactly where that byte stands |
| CStrings.LastCharIn | FixedString.h:361 | strrchr gives the last position of the byte, or -1 when it is absent |
| Search.CharAt | FixedString.h:282 | charAt gives the byte at a position inside the text and NUL exactly at positions outside it |
| Search.StartsWith | FixedString.h:322-328 | startsWith holds iff the pattern is non-empty and occurs at the offset |
| Search.StartsWithAsWritten | FixedString.h:322-328 | with 32-bit wrap in `offset + rhs_len`, the comparison window falls outside the text exactly when the wrapped sum fits but the true sum does not |
| Search.StartsWithAsWrittenAgrees | FixedString.h:325 | when the sum does not wrap, the guard as written decides exactly what StartsWith decides |
| Search.StartsWithWrapCounterexample | FixedString.h:325 | offset 0xFFFFFFFF with pattern "a" on "abc" passes the guard and reads outside the text |
| Search.EndsWith | FixedString.h:329-335 | endsWith holds iff the pattern is non-empty, fits, and is a suffix |
| Search.IndexOfChar | FixedString.h:336-344 | -1 from a start past the end; the length for NUL; otherwise the first occurrence at or after start, or -1 when there is none |
| Search.IndexOf | FixedString.h:345-356 | -1 for an empty pattern or when nothing occurs at or after start; otherwise the first occurrence at or after start |
| Search.LastIndexOfChar | FixedString.h:357-365 | -1 iff the byte is NUL or absent; otherwise the last position of the byte |
| Search.LastIndexOfCharFrom | FixedString.h:366-373 | -1 iff the byte is NUL or absent up to `from`; otherwise the last position not after `from` |
| Search.LastIndexOf | FixedString.h:374-394 | the strstr loop gives -1 iff the pattern is empty or has no occurrence starting at or before `from`; otherwise the greatest such start |
| Search.Substring | FixedString.h:395-410 | the range `[left, min(right, length))` after the swap; the rest of the text for npos; empty from a left past the end |
| Search.SubstringSwap | FixedString.h:399-404 | apart from npos, the order of the two bounds does not matter |
| Search.CharArray | FixedString.h:297-311 | toCharArray writes at most bufsize bytes, nothing iff bufsize is 0, always ending in a terminator |
| Search.CharArrayIsSubstring | FixedString.h:297-311 | what toCharArray writes is substring(index, index + bufsize - 1) followed by a terminator |
| Compare.CompareTo | FixedString.h:244-251 | 0 iff the texts are equal; negative iff the contents sort first; the first byte (or its negation) when one side is empty |
| Compare.Equals | FixedString.h:585-598 | true iff the lengths agree and the texts are equal, or equal after toupper on every byte when ignoring case |
| Numeric.DigitChar | FixedString.h:626 | the lower-case digit written for a value below 16 has that value and is printable, not space and not a sign |
| Numeric.Digits | FixedString.h:626 | the base-b digits of n are non-empty radix digits, with no leading zero unless n is 0 |
| Numeric.DigitsAreText | FixedString.h:626 | digits are NUL-free, not space and not a sign, and decimal for a base up to 10 |
| Numeric.DigitsRoundTrip | FixedString.h:626 | reading the digits of n back in base b gives n |
| Numeric.Render | FixedString.h:626 | the rendering is a non-empty text that starts with '-' iff the value is negative |
| Numeric.RenderRoundTrip | FixedString.h:626 | the sign and the digits of a rendering give back the value |
| Numeric.RenderHexExample | FixedString.h:634-643 | 255 in base 16 renders as "ff" |
| Numeric.ToChars | FixedString.h:626-628 | to_chars fails iff the rendering is longer than the room, and otherwise writes the rendering |
| Numeric.DigitsLength | FixedString.h:625 | a number below 2^k has at most k digits in any radix of at least 2 |
| Numeric.DigitsOfPow2 | FixedString.h:625 | 2^k has k + 1 binary digits |
| Numeric.ScratchFitsEveryValue | FixedString.h:625-628 | with a room of 1 + bits characters, every value of the type converts |
| Numeric.ScratchAsWrittenRejectsMinimum | FixedString.h:625-626 | with the room as written, the most negative value in base 2 fails to convert |
| Numeric.ScratchAsWrittenFitsOthers | FixedString.h:625-626 | with the room as written, every other value converts |
| Numeric.ScratchRoomAsWritten | FixedString.h:625-626 | the room to_chars gets as written: `sizeof(buf) - 1`, that is bits characters |
| Numeric.ScratchRoom | FixedString.h:625 | the corrected room: the whole scratch array of 1 + bits characters |
| Numeric.SkipSpace | FixedString.h:519 | atol's skip drops exactly the leading white space: every dropped byte is white space and the rest does not start with white space |
| Numeric.DigitRun | FixedString.h:519 | the longest prefix of decimal digits |
| Numeric.Atol | FixedString.h:519 | atol: a signed decimal read after the leading white space; AtolReads, AtolSkipsLeadingSpace, AtolStopsAtNonDigit and AtolRender give its meaning |
| Numeric.SignedDecimal | FixedString.h:519 | an optional sign, then the decimal digit run; the value is negative only after a '-'; AtolUnspaced gives its value on every text |
| Numeric.AtolSkipsLeadingSpace | FixedString.h:519 | leading white space does not change what atol reads |
| Numeric.AtolStopsAtNonDigit | FixedString.h:519 | atol reads a digit run up to the first byte that is not a digit |
| Numeric.AtolRender | FixedString.h:519 | atol reads back the decimal rendering of every value |
| Numeric.AtolExample | FixedString.h:519 | atol("123abc") is 123 |
| Numeric.AtolReads | FixedString.h:519 | on white space, then an optional '+' or '-', then a digit run ended by a non-digit, atol gives the run's value, negated after '-'; text with neither sign nor digits reads 0 |
| Numeric.AtolUnspaced | FixedString.h:519 | the same reading without leading white space: one optional sign, then the digit run up to the first non-digit |
| Numeric.UnsignedRun | FixedString.h:519 | without a sign, atol reads the digit run, and 0 when there are no digits |
| Numeric.SignedRun | FixedString.h:519 | after a '+' or '-', atol reads the digit run up to the first non-digit, negated after '-' |
| Numeric.NoNumber | FixedString.h:519 | text that begins with no white space, sign or digit reads as 0 |
| Numeric.AtolPlusExample | FixedString.h:519 | atol("+5x") is 5 |
| Numeric.AtolMinusExample | FixedString.h:519 | atol("-12ab") is -12 |
| Numeric.AtolNoDigitsExample | FixedString.h:519 | atol("abc") is 0 |
| Numeric.GetInt | FixedString.h:513-521 | get_int reports success iff the text is non-empty; it yields 0 when empty and the atol value otherwise |
| Numeric.ToInt | FixedString.h:487 | toInt is 0 for an empty text and the atol value otherwise, within the range of long |
| Edits.Splice | FixedString.h:543-545 | inserting p lengthens the text by exactly \|p\| |
| Edits.Repeat | FixedString.h:557-558 | n copies of c: length n, every byte c |
| Edits.Erased | FixedString.h:448-458 | remove(index, cnt) changes nothing for a zero count or a position past the end; otherwise it drops min(cnt, length - index) bytes at index and keeps the prefix and the rest |
| Edits.Truncated | FixedString.h:447 | remove(index) keeps the first min(index, length) bytes |
| Edits.InsertRefused | FixedString.h:533-541 | handle_insert's refusals: an index past the end, empty data, a full buffer, or data longer than the capacity when partial insertion is off |
| Edits.Inserted | FixedString.h:531-546 | the flag is true iff index ≤ length, data is non-empty and all of it fits, and then the text is the splice; a refused call leaves the text; otherwise the first min(available, len) bytes are spliced in |
| Edits.InsertedRepeat | FixedString.h:547-560 | NUL is refused; otherwise it is inserting `repeat` copies of c |
| Edits.ErasedSplice | FixedString.h:448-458 | removing what was just inserted gives the text back |
| Edits.ReplaceAll | FixedString.h:423-446 | the intended result of replace: every non-overlapping occurrence, taken left to right, replaced, and inserted text not searched again |
| Edits.ReplaceAllNone | FixedString.h:434 | with no occurrence, replacing everything changes nothing |
| Edits.ReplaceAllAt | FixedString.h:434-439 | the first occurrence is the first one replaced, and replacing resumes after it |
| Edits.ReplaceAllLonger | FixedString.h:423-446 | a replacement at least as long as the pattern never shortens the text |
| Edits.ReplaceAllSame | FixedString.h:432-433 | replacing a pattern by itself changes nothing, which is why the source stops early |
| Edits.ReplaceAllExample | FixedString.h:439 | replacing "a" by "bb" in "aaa" gives "bbbbbb": inserted text is not searched again |
| Edits.ReplacedExample | FixedString.h:423-446 | with room, replace("a", "bb") on "aaa" gives "bbbbbb" |
| Edits.SubstChar | FixedString.h:413-422 | every occurrence of c becomes new_c and every other byte stays |
| Edits.SubstCharIsReplaceAll | FixedString.h:413-422 | substituting one byte is replacing the one-byte pattern everywhere |
| Edits.ReplaceStep | FixedString.h:436-442 | one round of the loop stays within the capacity and shortens the text when the replacement is empty |
| Edits.ReplaceRun | FixedString.h:434-445 | the loop's result never exceeds the capacity |
| Edits.Replaced | FixedString.h:423-446 | replace(s, new_s) changes nothing for an empty text, an empty pattern or an identical replacement, and stays within the capacity |
| Edits.ReplaceStepAt | FixedString.h:436-442 | a round at an occurrence, with room, puts the replacement in place of the pattern |
| Edits.ReplaceRunStops | FixedString.h:443-444 | the loop stops once the position is off the text |
| Edits.ReplaceRunNext | FixedString.h:434-445 | each round either moves the search position forward, stops, or (for an empty replacement) keeps the position and shortens the text, so the loop terminates |
| Edits.ReplaceRunFits | FixedString.h:434-445 | from an occurrence found after a done prefix, the loop replaces every later occurrence when the result fits |
| Edits.ReplacedFits | FixedString.h:423-446 | when the result fits the capacity, replace(s, new_s) replaces every non-overlapping occurrence from left to right |
| Edits.LeadingSpace | FixedString.h:478-479 | trim's forward walk counts white-space bytes up to the first one that is not white space |
| Edits.TrailingSpace | FixedString.h:480 | trim's backward walk counts trailing white-space bytes up to the last one that is not white space |
| Edits.Trimmed | FixedString.h:472-484 | trim keeps the slice between the leading and trailing white space, and the result neither starts nor ends with white space |
| Edits.TrimmedPadding | FixedString.h:472-484 | padding a text on both sides with white space is exactly what trim removes |
| Edits.TrimmedIdempotent | FixedString.h:472-484 | trimming twice is trimming once |
| Edits.TrimmedExample | FixedString.h:472-484 | trim on " ab\t" gives "ab" |
| Edits.LeadingSpaceIs | FixedString.h:478-479 | a position preceded only by white space and holding a non-space byte is the leading count |
| Edits.TrailingSpaceIs | FixedString.h:480 | the same for the trailing count |
| Edits.TrimmedIs | FixedString.h:476-483 | the two walks' stopping points bound the trimmed text |
| Edits.TrimmedBetween | FixedString.h:476-483 | the same, with the white space on either side stated byte by byte |
| Edits.InsertedAtEnd | FixedString.h:193-194 | concat appends as much of the data as fits, reporting whether all of it did |
| Edits.InsertedRepeatAtEnd | FixedString.h:195-196 | concat(repeat, c) appends as many copies as fit, reporting whether all did |
| Edits.CharSet | FixedString.h:284-291 | setCharAt changes nothing past the end, cuts the text at the index for NUL, and changes only that byte otherwise |
| Edits.CharSetCharAt | FixedString.h:282-291 | read back with charAt: the byte just set, NUL after a cut, every other byte as before |
| Edits.ForcedConcat | FixedString.h:205-211 | NUL is refused; otherwise the text grows by c, or on a full buffer has its last byte replaced by c, and the rest is unchanged |
| Edits.ForcedConcatAsWritten | FixedString.h:205-211 | as written, on a full buffer the byte is stored even when it is NUL; in every other case it agrees with ForcedConcat |
| Edits.ForcedConcatNulCounterexample | FixedString.h:209 | force_concat('\0') on full "abcdef" reports success and leaves a NUL inside the counted length |
| FixedStrings.MemMove | FixedString.h:456 | memmove with overlapping ranges: the n bytes from src end up at dst and nothing else changes |
| FixedStrings.MoveDown | FixedString.h:456 | the forward copy for a destination below the source |
| FixedStrings.MoveUp | FixedString.h:543 | the backward copy for a destination above the source |
| FixedStrings.CopyInto | FixedString.h:544 | memcpy writes the data at the position and nothing else |
| FixedStrings.Fill | FixedString.h:557-558 | the fill loop writes cnt copies of c at the position and nothing else |
| FixedStrings.InsertBytes | FixedString.h:542-544 | the two byte moves leave the data spliced into the text |
| FixedStrings.InsertRepeatBytes | FixedString.h:555-558 | the move and the fill leave the copies spliced into the text |
| FixedStrings.EraseBytes | FixedString.h:454-456 | the move down, terminator included, leaves the text without the removed bytes |
| FixedStrings.WriteCharArray | FixedString.h:297-311 | the buffer gets CharArray at its front and is unchanged after it |
| FixedStrings.CopyTerminated | FixedString.h:309-310 | the copy and then the terminator |
| FixedStrings.WalkForward | FixedString.h:478-479 | the first byte that is not white space, with only white space before it |
| FixedStrings.WalkBack | FixedString.h:480 | the last byte that is not white space at or after start, with only white space after it |
| FixedStrings.InsertedSplice | FixedString.h:531-546 | past the refusals, handle_insert's flag and text are those of Inserted, and the text stays NUL-free |
| FixedStrings.InsertedRepeatSplice | FixedString.h:547-560 | the same for the repeat overload |
| FixedStrings.ErasedSlices | FixedString.h:454-457 | past the early returns, remove keeps the prefix and the bytes after the removed run |
| FixedStrings.FixedString.Valid | FixedString.h:568-574 | the invariant set_len keeps: length within the capacity, the terminator at the length, NUL-free text before it |
| FixedStrings.FixedString.Capacity | FixedString.h:98 | capacity(): N - 2 |
| FixedStrings.FixedString.Full | FixedString.h:157-158 | full(): no room is available |
| FixedStrings.FixedString.constructor | FixedString.h:123 | a new object is valid and empty |
| FixedStrings.FixedString.SetLen | FixedString.h:568-574 | a length within the capacity is stored with its terminator; a longer one changes nothing |
| FixedStrings.FixedString.SetLenReport | FixedString.h:575-579 | set_len, then report append_ok |
| FixedStrings.FixedString.Clear | FixedString.h:163 | the text becomes empty |
| FixedStrings.FixedString.HandleInsert | FixedString.h:531-546 | the flag and the new text are those of Inserted; the invariant holds |
| FixedStrings.FixedString.HandleInsertRepeat | FixedString.h:547-560 | the flag and the new text are those of InsertedRepeat; the invariant holds |
| FixedStrings.FixedString.Remove | FixedString.h:447 | the text is truncated to the index |
| FixedStrings.FixedString.RemoveRange | FixedString.h:448-458 | the text is Erased at index and count |
| FixedStrings.FixedString.HandleReplace | FixedString.h:561-566 | erase, then insert with partial insertion allowed |
| FixedStrings.FixedString.ReplaceAt | FixedString.h:436-442 | one round of the replace loop at index |
| FixedStrings.FixedString.ReplaceRound | FixedString.h:434-445 | one pass of the loop keeps the rest of the run and either moves forward, stops, or shortens the text |
| FixedStrings.FixedString.Replace | FixedString.h:423-446 | the loop leaves exactly Replaced, so with room every occurrence is replaced |
| FixedStrings.FixedString.ReplaceChar | FixedString.h:413-422 | nothing changes when c or new_c is NUL or they are equal; otherwise every c becomes new_c |
| FixedStrings.FixedString.ToLowerCase | FixedString.h:462-466 | the text is lower-cased byte by byte |
| FixedStrings.FixedString.ToUpperCase | FixedString.h:467-471 | the text is upper-cased byte by byte |
| FixedStrings.FixedString.TrimWalks | FixedString.h:476-480 | the two pointer walks bound exactly the trimmed text |
| FixedStrings.FixedString.Trim | FixedString.h:472-484 | the text becomes Trimmed of the old text |
| FixedStrings.FixedString.CutTo | FixedString.h:483 | set_len to a shorter length keeps the prefix |
| FixedStrings.FixedString.SetCharAt | FixedString.h:284-291 | the text becomes CharSet of the old text |
| FixedStrings.FixedString.ForceConcat | FixedString.h:205-211 | the flag and the text are those of the corrected ForcedConcat, which refuses NUL on a full buffer |
| FixedStrings.FixedString.ToCharArray | FixedString.h:293-311 | the buffer receives CharArray of the contents; nothing else is written |
| FixedStrings.FixedString.SetChars | FixedString.h:621-631 | with the corrected scratch room of 1 + bits characters: a failed conversion changes nothing; otherwise the rendering is inserted at the end without partial insertion |
| FixedStrings.FixedString.SetInteger | FixedString.h:634-673 | with the corrected scratch room: success iff the rendering fits the capacity; the text is the whole rendering, or empty on failure |
| FixedStrings.FixedString.SetI | FixedString.h:654-663 | the same for int |
| FixedStrings.FixedString.SetU | FixedString.h:634-643 | the same for unsigned int |
| FixedStrings.FixedString.SetL | FixedString.h:664-673 | the same for long |
| FixedStrings.FixedString.SetUL | FixedString.h:644-653 | the same for unsigned long |
| FixedStrings.FixedString.Assign | FixedString.h:165-166 | success iff the data is non-empty and fits; the text is the data cut to the capacity |
| FixedStrings.FixedString.AssignRepeat | FixedString.h:167 | success iff repeat > 0, c is not NUL and all copies fit; the text is as many copies as fit |
| FixedStrings.FixedString.AssignFrom | FixedString.h:168-169 | assigning from itself clears and fails; otherwise it is Assign of the other contents |
| FixedStrings.FixedString.Concat | FixedString.h:193-194 | success iff the data is non-empty and fits; as much of it as fits is appended |
| FixedStrings.FixedString.ConcatChar | FixedString.h:195 | success iff c is not NUL and there is room; then c is appended, and otherwise nothing changes |
| FixedStrings.FixedString.ConcatRepeat | FixedString.h:196 | success iff all copies fit; as many as fit are appended |
| FixedStrings.FixedString.ConcatFrom | FixedString.h:197-198 | the other object's contents at the call are appended, cut to the room |
| FixedStrings.FixedString.ConcatInteger | FixedString.h:202-203 | with the corrected scratch room: the rendering, or nothing if it does not fit a same-size string, is appended as far as it fits |
| FixedStrings.FixedString.Insert | FixedString.h:459-460 | the text is Inserted with partial insertion allowed |
| FixedStrings.FixedString.InsertRepeat | FixedString.h:461 | the text is InsertedRepeat |
| FixedStrings.Holding | FixedString.h:124 | a FixedString<8> built from a short text holds that text |
| FixedStrings.OverflowExample | FixedString.h:537-538 | appending to a full FixedString<8> is refused and leaves "abcdef" |
| FixedStrings.ForceConcatExample | FixedString.h:205-211 | force_concat('Z') on full "abcdef" gives "abcdeZ" |
| FixedStrings.HexExample | FixedString.h:634-643 | set_u(255, base16) gives "ff" |
| FixedStrings.ReplaceExample | FixedString.h:423-446 | replace("a", "bb") on "aaa" gives "bbbbbb" |
| FixedStrings.TrimExample | FixedString.h:472-484 | trim on " ab\t" gives "ab" |

## Left out

- `format` and `formatV`: the rendering is done by `vsnprintf` with varargs.
- Floating point: `set_f`, `get_float`, `to_float`, `toFloat`, `toDouble` and `concat(double)` rely on `snprintf`, `atof` and `isnan`.
- `notify_overrun` only prints. It is modelled as returning false with no change of state.
- All code under `ARDUINO`: PROGMEM, `FlashPtr`, `String`, and `utoa`, `itoa`, `ltoa`.
- The internals of `std::to_chars`: the conversion is specified by `Numeric.Render`, with lower-case digits and a leading '-' for negative values.
- `begin()`, `end()`, `c_str()` and `update_len()`: these exist for changes made to the array from outside the class.
- `length()`, `available()` and `empty()` have no separate members. They are `|Contents()|`, `Capacity() - |Contents()|` and `Contents() == []`.
- The comparison and assignment operators, the conversions, `operator+`, and the constructors other than the default one. They are thin wrappers over `assign`, `concat`, `compareTo` and `equals`, which are modelled.
- `getBytes` forwards to `toCharArray`, which `FixedStrings.FixedString.ToCharArray` models.
- Locale: `isspace`, `toupper` and `tolower` follow the "C" locale.
- Characters are NUL-free ASCII (1 to 127). Signed `char` and bytes above 127 are not modelled.
- Compare.CompareTo: the `(rhs, len)` overload is modelled only when `strlen(rhs) == len`. The source runs strncmp over `max(length(), len)` bytes, so it can read `rhs` past `len`. For example, "abcd".compareTo("abcdef", 3) compares 4 bytes and returns 0, while the model reads `rhs` as "abc" and gives a positive result. `equals(rhs, len)` is not affected, because it reaches compareTo only when `length() == len`.
- Text arguments (`const char*`) are sequences read when the call is made. A null pointer is the empty sequence. A buffer that aliases the object's own array is not modelled, and `ToCharArray` requires a separate buffer.
- Numeric.ToInt: requires the `atol` value to fit in a `long`, because `atol` overflow is undefined behaviour. The narrowing cast of `get_int` to types other than `long` is not modelled either.
- Integer widths follow LP64: `int` is 32 bits and `long` is 64 bits.
- The queries (`compareTo`, `equals`, `indexOf` and so on) are functions of the contents rather than methods of the class. The `&rhs == this` shortcut in `compareTo` and `equals` gives the same answer as comparing the contents.
- FixedStrings.FixedString.ReplaceChar: requires `new_c` to be NUL or ASCII. FixedStrings.FixedString.SetCharAt and the `c` arguments of the insert family have the same requirement.
- FixedStrings.FixedString.Replace: one round of the loop is the method `ReplaceRound`. The source's `break` once the index passes the end is the loop guard.
- FixedStrings.FixedString.SetChars: converts with the corrected scratch room of 1 + bits characters. The source's room is bits characters, so `set_chars` on the most negative value of a signed type in base 2 returns false and leaves the text unchanged. In the model the conversion succeeds, and the insertion that follows may still refuse the rendering or cut it, as it does for any other value. Numeric.ScratchAsWrittenRejectsMinimum gives the source's result, and Numeric.ScratchAsWrittenFitsOthers shows that no other value is affected.
- FixedStrings.FixedString.SetInteger: inherits the corrected room from SetChars. For the signed minimum in base 2 the source returns false with an empty text, where the model succeeds whenever the rendering fits the capacity.
- FixedStrings.FixedString.SetI: `set_i(INT_MIN, base2)` succeeds here when the capacity is at least 33 (N >= 36). The source returns false with an empty text.
- FixedStrings.FixedString.SetL: `set_l(LONG_MIN, base2)` succeeds here when the capacity is at least 65 (N >= 68). The source returns false with an empty text.
- FixedStrings.FixedString.ConcatInteger: the temporary is built with the corrected room, so for the signed minimum in base 2 the model appends the rendering. In the source the temporary is empty, and the call appends nothing and returns false.
- FixedStrings.FixedString.ForceConcat: on a full buffer with `c` equal to NUL, the model returns false and leaves the text unchanged. The source returns true and stores the NUL inside the counted length, which would break the class invariant. Edits.ForcedConcatAsWritten gives the source's result.

## Findings

| source | as written | input that shows it | evidently intended | confidence | as-written member | corrected member |
|---|---|---|---|---|---|---|
| FixedString.h:325 | `offset + rhs_len > length()` is computed in 32-bit `size_type` and wraps | startsWith("a", 0xFFFFFFFF) on "abc": the sum wraps to 0, the guard passes, and strncmp reads outside the buffer | false whenever the pattern does not fit after the offset | not executed | Search.StartsWithWrapCounterexample | Search.StartsWith |
| FixedString.h:625-626 | to_chars gets `sizeof(buf) - 1` = 8·sizeof(T) characters of room | set_i(INT_MIN, base2) needs 33 characters ('-' and 32 digits), so to_chars fails and the call returns false with an empty text | a room of 1 + 8·sizeof(T), the whole scratch array | not executed | Numeric.ScratchAsWrittenRejectsMinimum | Numeric.ScratchFitsEveryValue |
| FixedString.h:207-210 | on a full buffer the byte is stored even when it is NUL | force_concat('\0') on full "abcdef" returns true and leaves a NUL inside the counted length, so length() no longer matches strlen | NUL refused, as concat('\0') refuses it when there is room | not executed | Edits.ForcedConcatNulCounterexample | Edits.ForcedConcat |
