# CNJ legal-process numbers in Dafny

A model of `brutils/legal_process.py`. The module validates, formats and
generates Brazilian CNJ legal-process numbers. The display form is
`NNNNNNN-DD.AAAA.J.TR.OOOO`:

- `NNNNNNN`: a sequential number.
- `DD`: two check digits.
- `AAAA`: the filing year.
- `J`: the justice segment.
- `TR`: the court.
- `OOOO`: the forum.

The canonical form is the same 20 digits without separators. The check digits
come from `97 - (basis * 100 mod 97)`, zero-filled to two places. `basis` is
the integer read from all the other digits, in order.

The project has three modules:

- `Decimal` (`decimal.dfy`) covers what Python's `str(n)`, `s.zfill(w)` and
  `int(s)` do on non-negative numerals, without the limit that recent CPython
  releases put on the length of the text `int()` reads. It includes the lemmas that tie them
  together (value of a concatenation, leading zeros, injectivity at a fixed
  width).
- `Chars` (`chars.dfy`) covers the regex classes `\w` and `\s` and the
  one-character filtering that `re.findall` and `re.sub` perform with them.
- `LegalProcess` (`legal_process.dfy`) covers every function of the file:
  - the symbol sieve;
  - the checksum;
  - `validate` and `is_valid`, over the regex search for the check field;
  - the 7-2-4-1-2-4 layout;
  - `format_processo_juridico` and `display`, both as written and as
    evidently intended;
  - `generate` and `_generate_random_year`, with the random draws, the clock
    and the court registry passed in.

Exceptions that the source raises are modelled explicitly, as an `Outcome`
that is either `Returned(value)` or `Raised`:
- `validate` raises when the search finds no `-` with a `.` after it (so
  `match.group` fails), or when no digit is left for `int()`. The
  `ValueError` that recent CPython raises for more than 4300 digits is not
  modelled (see "## Left out");
- `_checksum` raises `TypeError` on text and on None (`ChecksumOf`).
  `generate` as written passes it text at line 93, so every call of
  `generate` raises (`GenerateAsWritten`). The other `generate` members
  (`GenerateFields`, `Generate`, `GenerateCanonical`) pass the integer value
  of that text, as intended.

## Model

| member | source | states |
|---|---|---|
| LegalProcess.Sieve | brutils/legal_process.py:11-20 | Only characters outside word characters, whitespace, `-` and `.` come out, and the result is empty exactly when every input character is one of those |
| LegalProcess.SieveKeepsDuplicates | brutils/legal_process.py:20 | Every stray character comes out as many times as it occurs in the input |
| LegalProcess.SieveKeepsOrder | brutils/legal_process.py:20 | The sieve splits around any character: the output of `before + c + after` is the output of `before`, then `c` if it is stray, then the output of `after`, so input order is kept |
| LegalProcess.RemoveSymbols | brutils/legal_process.py:23-25 | `remove_symbols` gives exactly what `sieve` gives |
| LegalProcess.Checksum | brutils/legal_process.py:105-110 | The result is two decimal digits with a value in 01..97 (never "00", never three characters), and `basis * 100 + value` is divisible by 97 |
| LegalProcess.ChecksumCharacterization | brutils/legal_process.py:110 | A text is the checksum of `basis` if and only if it is two digits with a value in 1..97 that make `basis * 100 + value` divisible by 97 |
| LegalProcess.ChecksumOf | brutils/legal_process.py:105-110 | `_checksum` on a text, integer or None raises exactly when the value is not an integer (text times 100 is repeated text, and `%` on it is string formatting), and on an integer it returns the check digits of that integer |
| LegalProcess.CheckDigitsUnique | brutils/legal_process.py:110 | At most one two-digit text in 1..97 keeps the mod-97 relation with a given basis |
| LegalProcess.StopOf | brutils/legal_process.py:65 | The first position at or after `from` holding a `.` or a line feed (what ends the lazy `.*?`, since `.` matches no line feed), or the text length when there is none |
| LegalProcess.MatchStart | brutils/legal_process.py:66 | Where `re.search` finds its match: the leftmost position at or after `from` holding a `-` whose next `.` or line feed is a `.`, or the text length when there is none |
| LegalProcess.MatchStartFirst | brutils/legal_process.py:66 | The match starts at `k` when the pattern matches at `k` and at no earlier position |
| LegalProcess.HasCheckField | brutils/legal_process.py:65-66 | `re.search(r"-(.*?)\.", s)` finds a match exactly when some `-` has a `.` after it with no line feed in between |
| LegalProcess.DashThenDot | brutils/legal_process.py:65-66 | The leftmost match exists exactly when some `-` precedes some `.` with no line feed between them |
| LegalProcess.CheckField | brutils/legal_process.py:65-67 | `match.group(1)`: the field starts right after the `-` where the match starts, a `.` follows it, and it holds no `.` (the lazy `.*?` stops at the first one) and no line feed |
| LegalProcess.LineFeedExamples | brutils/legal_process.py:65-67 | Worked values: "-\n." has no match, and in "-\n-5." the match starts at the second `-`, with check field "5" |
| LegalProcess.Remainder | brutils/legal_process.py:70 | Putting `-`, the check field and `.` back where the match started gives the text again: exactly the first match is cut out |
| LegalProcess.Scrub | brutils/legal_process.py:70 | No longer than its input, and only word characters and whitespace remain |
| LegalProcess.BasisDigits | brutils/legal_process.py:68-72 | The text `int()` reads is all digits, and it is exactly the digits left, in order, once the check field is cut out |
| LegalProcess.CanValidate | brutils/legal_process.py:65-72 | `validate` can finish exactly on a text of digits, `-` and `.` with a `-` followed later by a `.`, and with a digit left after the check field is cut out |
| LegalProcess.Validate | brutils/legal_process.py:60-73 | On a text of digits, `-` and `.`: raises exactly when there is no `-` followed later by `.`, or no digit outside the check field; otherwise returns true exactly when the check field (the text between the first `-` and the next `.`) is two digits that keep the mod-97 relation with the remaining digits. A DD of "5" or "005" never validates |
| LegalProcess.IsValid | brutils/legal_process.py:76-80 | Anything that is not text gives false; on text it raises exactly when `validate` does, and it is true exactly when the text's check field keeps the mod-97 relation |
| LegalProcess.ScrubProcessText | brutils/legal_process.py:70 | On a text of digits, `-` and `.`, deleting non-word characters leaves exactly its digits |
| LegalProcess.SearchFindsCheck | brutils/legal_process.py:65-70 | In `a-dd.t` with `a` all digits and neither `.` nor a line feed in `dd`, the search finds `dd` as the check field, and cutting out the match leaves `a + t` |
| LegalProcess.CheckDigitsDetermined | brutils/legal_process.py:65-73 | Round trip: for any digit fields and any two characters from digits, `-` and `.` in the DD place, the display form validates without raising, and it is valid exactly when DD is the checksum of the other fields' value, so any other DD fails |
| LegalProcess.ScrubDisplayText | brutils/legal_process.py:70 | Deleting the separators from the display form of digit fields gives their canonical form |
| LegalProcess.Split | brutils/legal_process.py:50 | A 20-character text splits into fields of widths 7, 2, 4, 1, 2, 4 whose concatenation is the text |
| LegalProcess.SplitCanonical | brutils/legal_process.py:50 | Splitting the canonical form of standard-width fields gives the same fields back |
| LegalProcess.Layout | brutils/legal_process.py:50-52 | The laid-out form has 25 characters: `-` after digit 7 and `.` after digits 9, 13, 14 and 16, with the digit groups in place between them |
| LegalProcess.LayoutRoundTrip | brutils/legal_process.py:50-52 | Laying out the canonical form of standard-width fields gives their display form, and deleting the separators gives the canonical form back |
| LegalProcess.LayoutValidation | brutils/legal_process.py:49-52 | For any 20 digits, the laid-out form validates without raising; it is valid exactly when digits 8-9 are the checksum of the other 18; deleting its separators gives the input back |
| LegalProcess.SplitValid | brutils/legal_process.py:50 | A 20-digit text is valid exactly when its DD field is the checksum of the value of its other five fields |
| LegalProcess.LayoutDigits | brutils/legal_process.py:50-52 | The layout of 20 digits holds exactly those digits, in order |
| LegalProcess.SubstituteLayout | brutils/legal_process.py:52 | The substitution never shortens the text; the digits of the result are those of the input in order, and dropping `-` and `.` from result and input gives the same text: it only inserts separators |
| LegalProcess.LayoutNonSeparators | brutils/legal_process.py:50-52 | Dropping `-` and `.` from the layout of 20 digits gives those digits back |
| LegalProcess.AlphabetNotSeparator | brutils/legal_process.py:50-52 | On digits, `-` and `.`, dropping the separators and keeping the digits are the same filter |
| LegalProcess.SubstituteWithoutRun | brutils/legal_process.py:52 | Where no 20 digits stand in a row, the substitution changes nothing |
| LegalProcess.SubstituteCanonical | brutils/legal_process.py:52 | On exactly 20 digits the substitution is the layout |
| LegalProcess.FormatAsWritten | brutils/legal_process.py:43-53 | `format_processo_juridico` as written: raises exactly when `validate` would; returns a value only when `is_valid` is true, and that value is the substitution applied to the same text |
| LegalProcess.DigitsCannotValidate | brutils/legal_process.py:65-67 | A digits-only text has no check field for the search to find, so `validate` cannot complete on it |
| LegalProcess.FormatAsWrittenRaisesOnDigits | brutils/legal_process.py:49 | Format as written raises on every digits-only text, including every 20-digit canonical number |
| LegalProcess.FormatAsWrittenKeepsDisplayText | brutils/legal_process.py:49-52 | On the display form of standard-width fields, format as written returns the text unchanged when DD checks, and None otherwise: the layout never applies |
| LegalProcess.NoRunAcross | brutils/legal_process.py:50 | A short text with a non-digit among its first 20 characters holds no run of 20 digits |
| LegalProcess.FormatProcessoJuridico | brutils/legal_process.py:43-53 | Corrected: returns a value exactly on text that is 20 digits whose DD is the checksum of the rest; the value is the layout, and deleting its separators gives the input back |
| LegalProcess.OneRepeatedChar | brutils/legal_process.py:37 | Holds exactly when the set of characters of the text has one element |
| LegalProcess.OneCharSet | brutils/legal_process.py:37 | A non-empty text all of whose characters equal the first is exactly a text whose character set has size 1 |
| LegalProcess.PassesDisplayGuardAsWritten | brutils/legal_process.py:34-38 | The guard lets a text through exactly when it is non-empty digits, has length 11, and its character set does not have size 1 |
| LegalProcess.DisplayAsWritten | brutils/legal_process.py:28-40 | `display` as written: returns None for every input that is not 11 digits or that repeats one digit; it raises on every input that passes the guard; it never returns a display form |
| LegalProcess.DisplayAsWrittenExamples | brutils/legal_process.py:34-40 | Worked values: "11111111111" gives None, "12345678901" raises |
| LegalProcess.DisplayGuardTooShortForLayout | brutils/legal_process.py:36 | What the guard lets through is too short for the 20-digit layout, which would leave it unchanged |
| LegalProcess.Display | brutils/legal_process.py:28-40 | Corrected: returns a value exactly when the input is 20 digits, not all one digit, and its DD is the checksum of the rest; the value is the layout |
| LegalProcess.RandInt | brutils/legal_process.py:87 | `randint(lo, hi)` lies in `lo..hi` |
| LegalProcess.GenerateRandomYear | brutils/legal_process.py:97-102 | The year lies between 1970 and the current year |
| LegalProcess.PaddedCode | brutils/legal_process.py:89-90 | The code is digits, at least `width` long, its value is an entry of the registry list, and it is that entry's numeral zero-filled to `width` |
| LegalProcess.GenerateFields | brutils/legal_process.py:87-93 | Corrected at line 93: all the fields are digits, the sequential number has at most 7, and DD is the checksum of the integer value of the other fields in canonical order |
| LegalProcess.GeneratedCodes | brutils/legal_process.py:87-92 | Registry bounds: J is in 4..9 and is a registry key; TR and OOOO are entries of that segment's lists, zero-filled to 2 and 4; the year is in 1970..current year; N is below 10^7 without padding |
| LegalProcess.GenerateAsWritten | brutils/legal_process.py:83-94 | `generate` as written raises for every draw, registry and year, because line 93 hands `_checksum` the text of the fields |
| LegalProcess.WithCheck | brutils/legal_process.py:94 | The f-string of line 94 once `_checksum` has returned: it fails exactly when the checksum call raised, and a two-character DD stands right after N, with the other fields, in order, around it |
| LegalProcess.Generate | brutils/legal_process.py:83-94 | The output is digits, and the two digits right after the sequential number are the checksum of all the other digits |
| LegalProcess.ChecksumAfterSequence | brutils/legal_process.py:93-94 | Fields whose DD is the checksum of their basis give a canonical text whose two digits after the sequential number are the checksum of the rest |
| LegalProcess.GenerateValidates | brutils/legal_process.py:83-94 | The display form of every generated number validates without raising |
| LegalProcess.GenerateDropsLeadingZeros | brutils/legal_process.py:92-94 | Under standard-width registry codes and a four-digit year, the output has 20 digits exactly when the sequential number is at least 1000000 |
| LegalProcess.PadSequence | brutils/legal_process.py:92 | Zero-filling the sequential number to 7 keeps every other field and the value of the basis, and puts the zeros in front of the canonical text |
| LegalProcess.GenerateCanonical | brutils/legal_process.py:83-94 | Corrected `generate`, padding N to 7 digits: the output is digits |
| LegalProcess.GenerateCanonicalPads | brutils/legal_process.py:92-94 | The padded output is the output of `generate` with line 93 corrected (`Generate`), with the dropped leading zeros put back |
| LegalProcess.GenerateCanonicalValid | brutils/legal_process.py:83-94 | Under standard-width registry codes and a four-digit year, the corrected output is a 20-digit canonical number whose DD checks |
| Decimal.Show | brutils/legal_process.py:89-94 | `str(n)`: non-empty digits whose value is `n`, with no leading zero unless `n` is 0 |
| Decimal.ShowLength | brutils/legal_process.py:89-94 | `str(n)` has at most `k` characters exactly when `n < 10^k` |
| Decimal.ZFill | brutils/legal_process.py:110 | `zfill(width)`: the text gets `width` characters, or keeps its own length if already longer; it ends with the original text, and only '0's come before it |
| Decimal.ZFillValue | brutils/legal_process.py:110 | Zero-filling keeps a numeral digits-only and keeps its value |
| Decimal.ValueOf | brutils/legal_process.py:68-72 | `int()` of a numeral: its value is below 10 to the power of its length |
| Decimal.ValueOfConcat | brutils/legal_process.py:68-72 | Reading a concatenation shifts the left part's value by the right part's width |
| Decimal.ValueOfInjective | brutils/legal_process.py:73 | Two numerals of the same width with the same value are the same text |
| Chars.Filter | brutils/legal_process.py:20 | The result is no longer than the input and holds only kept characters |
| Chars.FilterCounts | brutils/legal_process.py:20 | Filtering keeps each kept character as many times as it occurs, and no other character |
| Chars.FilterEmptyIff | brutils/legal_process.py:20 | Filtering leaves nothing exactly when no character is kept |

## Left out

- Randomness: each `randint(lo, hi)` is given as its drawn offset into `lo..hi`, in the `Draws` record. The model does not claim anything about the distribution.
- The clock: `datetime.now().year` is the `currentYear` parameter.
- The registry `brutils.assets.legal_process_ids` is not part of this model. It is a parameter: a map from J to the court and forum code lists. Where a property needs them, it assumes that the lists for 4..9 are non-empty, court codes are below 100, and forum codes are below 10000.
- Python's regex engine and Unicode: `\w`, `\s` and `\d` are their ASCII members, and `isdigit` accepts only ASCII digits.
- LegalProcess.Validate: requires a text of digits, `-` and `.`. On other text, `int()` would decide what happens to letters, whitespace, `_` and Unicode digits, and the model does not follow `int()` there. It also returns for any number of digits, where CPython from 3.11 (and 3.7.14, 3.8.14, 3.9.14, 3.10.7) raises `ValueError` in `int()` above 4300 digits by default (`sys.set_int_max_str_digits`).
- LegalProcess.IsValid: requires the same of text values, and leaves out the same digit limit, for the same reasons.
- LegalProcess.FormatAsWritten: requires the same of text values as `IsValid`, whose outcome it passes on, and leaves out the same digit limit.
- LegalProcess.CheckDigitsDetermined: lets DD range over digits, `-` and `.` only, not over any two characters.
- LegalProcess.GenerateFields: takes the checksum of the integer value of the concatenated fields. The source passes the concatenated text itself (line 93), which raises `TypeError`. `GenerateAsWritten` models that; the other `generate` members follow the evident intent.
- Decimal.ZFill: models `zfill` on unsigned numerals only. The sign handling of `zfill` never arises here.
- Exceptions are modelled as a single `Raised` outcome. The model does not tell `AttributeError`, `ValueError` and `TypeError` apart.

## Findings

| source | as written | input that shows it | evidently intended | confidence | as-written member | corrected member |
|---|---|---|---|---|---|---|
| brutils/legal_process.py:36 | `display` lets through only 11-digit text, then asks `is_valid` about it, and `validate` raises for lack of a `-`. The 20-digit layout can never apply | "12345678901" raises; any 20-digit number gives None | Accept 20 digits not all alike and return the layout when DD checks | not executed | LegalProcess.DisplayAsWritten | LegalProcess.Display |
| brutils/legal_process.py:49 | `format_processo_juridico` validates the digits-only text it is about to lay out. `validate` needs a `-`, so every canonical number raises | "00000011520258260100" (any 20 digits) raises | Check DD of the canonical number (equivalently, validate its laid-out form) and return the layout | not executed | LegalProcess.FormatAsWrittenRaisesOnDigits | LegalProcess.FormatProcessoJuridico |
| brutils/legal_process.py:93 | `generate` passes the text `f"{NNNNNNN}{AAAA}{J}{TR}{OOOO}"` to `_checksum`. There `basenum * 100` repeats the text and `% 97` is string formatting with no conversion, which raises `TypeError` | Any draws: every call raises | Pass the integer value of that text | not executed | LegalProcess.GenerateAsWritten | LegalProcess.GenerateFields |
| brutils/legal_process.py:92-94 | Once line 93 passes the integer value, `generate` still writes the sequential number without zero padding, so the output is shorter than 20 digits for N below 1000000. As written, every call raises at line 93 first | With line 93 corrected, draws giving N = 42 give 15 digits | Zero-fill N to 7 digits; the checksum is unchanged | not executed | LegalProcess.GenerateDropsLeadingZeros | LegalProcess.GenerateCanonicalValid |
