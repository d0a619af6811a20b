# rofimoji character catalog, modelled in Dafny

rofimoji is a character picker. Its catalog is built offline by
`extract_emojis.py`, which reads Unicode data files and writes the list the
picker shows. Its runtime lookup table lives in
`src/extractors/characterfactory.py`. This project models both and proves
what they compute.

- **Range decoder** (`extract_emojis_from_line`). It reads the first `;`
  column of a data line as one hexadecimal code point, or as an inclusive
  `START..END` range (the code point range convention of the Unicode
  Character Database, Unicode Standard Annex #44, section 4.2). Module
  `RangeDecoder`.
- **Line extractors** (`fetch_emojis`, `fetch_math_symbols`,
  `fetch_human_emojis`). They skip comment and blank lines and concatenate
  the decoded code points. The human-emoji extractor only reads the lines
  between two exact marker lines. Module `Extractors`.
- **Description table** (`extract_character_description_from_line`,
  `fetch_character_descriptions`). It maps code point to name from
  `UnicodeData.txt`; a later line for the same code point wins. Modules
  `Descriptions` and `Tables`.
- **Collator** (`fetch_emoji_list`). It merges, deduplicates, sorts, names
  and lower-cases the code points. Module `Collation`.
- **Entry renderer** (`compile_entries`). Module `Entries`.
- **Character and CharacterFactory**. These cover name normalisation, the
  right-to-left test, the left-to-right mark, the `UnicodeData.txt` loop
  and `get_character`. Module `Characters`.

The Python built-ins the code relies on are modelled in module `PyStr`:
`str.strip`, `str.split`, `str.join`, `str.startswith`, `str.lower`,
`str.title`, `int(s, 16)` and `chr`. The exceptions are modelled in module
`Results`. A raised exception is an `Err(ValueError)`, `Err(OverflowError)`
or `Err(IndexError)` result, and the first one raised ends the loop, as in
Python.

Inputs that the Python code downloads are parameters here. A downloaded
file is a `seq<string>` of its lines. The `DESCRIPTIONS` global is a
`map<int, string>`. The annotations are a `map<Text, seq<string>>`. The
`unicodedata.bidirectional` lookup is a function `int -> string`. A
character is its code point. Text built from code points is a `seq<int>`,
because a Dafny `char` cannot hold the lone surrogates that `chr()` can
produce.

Each loop of the source is a method. Each method is proved equal to a
function: `ExtractEmojisFromLine` to `CodePointsOfLine`, `FetchCodePoints`
to `CodePointsOfLines`, `FetchHumanEmojis` to `HumanCodePoints`,
`FetchCharacterDescriptions` to `DescriptionTable`, `FetchEmojiList` to
`EmojiList`, `CompileEntries` to `Entry`, and
`CharacterFactory.FetchCharacters` to `CharacterTable`. Lemmas then state
what those functions promise.

Behaviour worth noting, as the code has it:

- A start marker that never occurs gives an empty list, not an error.
- A range with START > END decodes to nothing.
- A malformed record raises an error. It is not skipped.
- The character factory does not skip comment lines. It only skips lines
  with fewer than two `;` fields or a name starting with `<`.
- `int()` skips less white space than `str.strip()`: the information
  separators U+001C..U+001F are white space to `strip()` but not to
  `int()`. Range pieces and the factory's field 0 are read by `int()`
  without a `strip()` first, so such a separator there raises ValueError.
- `chr()` raises OverflowError, not ValueError, for a value beyond the C
  `int` range. The decoder's `except ValueError` does not catch it.

## Model

| member | source | states |
|---|---|---|
| PyStr.Split | extract_emojis.py:111 | `str.split(sep)` always gives at least one piece; SplitAfterPiece, SplitWithoutSeparator, JoinSplit and SplitJoin state which |
| PyStr.Strip | extract_emojis.py:111 | `str.strip()` leaves no white space at either end |
| PyStr.StripTrailingSpace | extract_emojis.py:111 | stripping a word followed by white-space padding gives back the word |
| PyStr.JoinSplit | extract_emojis.py:131 | joining the pieces of `str.split(sep)` with `sep` gives back the string |
| PyStr.SplitAfterPiece | extract_emojis.py:13 | a piece in which the separator's first character does not occur, then the separator, splits off as the first field |
| PyStr.SplitJoin | src/extractors/characterfactory.py:43 | splitting fields joined by `;` gives back the fields when none contains `;` |
| PyStr.SplitWithoutSeparator | extract_emojis.py:113 | a string in which the separator's first character does not occur splits into one piece, itself |
| PyStr.Lower | extract_emojis.py:47 | `str.lower()` keeps the length and leaves no upper-case letter |
| PyStr.Title | src/extractors/characterfactory.py:12 | `str.title()`, defined by a left-to-right scan; TitleAt states it character by character |
| PyStr.TitleAt | src/extractors/characterfactory.py:12 | `str.title()`: a letter after a letter is lower case, every other letter upper case |
| PyStr.TitleIdempotent | src/extractors/characterfactory.py:12 | title-casing a title-cased name changes nothing |
| PyStr.LowerTitle | src/extractors/characterfactory.py:12 | title-casing changes only the case of letters |
| PyStr.ParseHex | extract_emojis.py:119 | `int(s, 16)`: white space that `int()` skips, an optional sign, an optional `0x`, then one or more hex digits; None where it raises ValueError (ParsedCharacters, StrayCharacter and ParseHexNumeral state what it accepts) |
| PyStr.IntStrip | src/extractors/characterfactory.py:46 | the text `int()` reads has no `int()` white space at either end; U+001C..U+001F are not skipped |
| PyStr.ParseHexNumeral | extract_emojis.py:119 | `int(d, 16)` of a plain hex numeral, zero-padded or not, is its digits' value |
| PyStr.ParsedCharacters | extract_emojis.py:119 | every character of a string `int(s, 16)` accepts is white space, a sign, an `x` or a hex digit |
| PyStr.StrayCharacter | extract_emojis.py:119 | `int(s, 16)` raises ValueError for a string holding a character that is not `int()` white space, a sign, an `x` or a hex digit |
| PyStr.ChrError | src/extractors/characterfactory.py:11 | `chr()` raises OverflowError exactly for a value outside the C `int` range, ValueError for any other value that is no code point |
| PyStr.Chr | src/extractors/characterfactory.py:11 | `chr(v)` succeeds exactly for a code point, keeping it, and otherwise raises the exception ChrError names |
| PyStr.StripUnpadded | src/extractors/characterfactory.py:12 | a string without white space at either end is its own `strip()` |
| PyStr.HexValueToHex | extract_emojis.py:119 | reading back the uppercase numeral of n gives n |
| PyStr.ParseHexToHex | extract_emojis.py:119 | `int(s, 16)` reads back the numeral of n as n |
| RangeDecoder.Interval | extract_emojis.py:115 | `range(lo, hi + 1)` holds hi − lo + 1 values, element i being lo + i, and is empty when lo > hi |
| RangeDecoder.FirstRefused | extract_emojis.py:115-116 | the first value of `range(lo, hi + 1)` that `chr()` refuses: every value before it is a code point |
| RangeDecoder.ChrAll | extract_emojis.py:115-117 | the loop succeeds exactly when `chr()` accepts the whole range |
| RangeDecoder.TryRange | extract_emojis.py:113-117 | a successful try branch is strictly increasing and made of code points |
| RangeDecoder.DecodeScalar | extract_emojis.py:119 | succeeds exactly when the field is a numeral whose value is a code point, giving that one value; a field that is no numeral raises ValueError |
| RangeDecoder.DecodeField | extract_emojis.py:112-119 | a decoded field is strictly increasing and made of code points |
| RangeDecoder.ChrRange | extract_emojis.py:114-117 | the loop computes ChrAll: lo, …, hi when `chr()` accepts them all, else the exception of the first refused value |
| RangeDecoder.ExtractEmojisFromLine | extract_emojis.py:110-119 | the decoder returns or raises exactly what `CodePointsOfLine` says |
| RangeDecoder.DecodeSingle | extract_emojis.py:111-119 | a line whose first column is one numeral decodes to exactly that code point |
| RangeDecoder.DecodeRange | extract_emojis.py:113-117 | a `START..END` column decodes to S, S+1, …, E, and to nothing when S > E |
| RangeDecoder.DecodeRangeBeyondUnicode | extract_emojis.py:115-119 | a range reaching past U+10FFFF raises OverflowError when its start is beyond the C `int` range, and otherwise ValueError, because the fallback is not guarded |
| RangeDecoder.TryRangeOfNumerals | extract_emojis.py:113-117 | the try branch on `START..END` runs the `chr()` loop over their values |
| RangeDecoder.ChrAllBeyondUnicode | extract_emojis.py:115-116 | a range reaching past U+10FFFF fails at U+110000, or at its start when that is already past it |
| RangeDecoder.SeparatorBeforeDots | extract_emojis.py:113-119 | a range piece padded with U+001C, as in `0041\x1c..0042`, raises ValueError, because `int()` does not skip it |
| RangeDecoder.RangeFieldIsNoNumeral | extract_emojis.py:119 | a field containing `.` is never one numeral |
| RangeDecoder.MalformedFieldHasNoRange | extract_emojis.py:111-115 | a character that is not `int()` white space, a sign, an `x`, a dot or a hex digit keeps the try branch from reading two numerals around `..` |
| RangeDecoder.MalformedFieldFails | extract_emojis.py:111-119 | a first column holding a character that is not `int()` white space, a sign, an `x`, a dot or a hex digit, such as `ZZZZ` or an inner U+001C, raises ValueError |
| RangeDecoder.FieldOfLine | extract_emojis.py:111 | only the stripped text before the first `;` is decoded |
| Extractors.FetchCodePoints | extract_emojis.py:61-67 | the emoji and maths loops compute `CodePointsOfLines` |
| Extractors.ExtractAllAppend | extract_emojis.py:78-84 | extracting from two parts of a file in turn is extracting from the whole file |
| Extractors.ErrorPersists | extract_emojis.py:82 | an error on an earlier line is the error of the whole file |
| Extractors.ExtractAllSucceeds | extract_emojis.py:79-82 | extraction succeeds exactly when every non-comment, non-blank line decodes |
| Extractors.ExtractAllMembers | extract_emojis.py:79-82 | the result holds exactly the code points of the non-comment, non-blank lines |
| Extractors.SkippedLineIgnored | extract_emojis.py:80-81 | a `#` line or blank line can be removed without changing the result |
| Extractors.FirstIndexOf | extract_emojis.py:98-100 | finds the first line equal to the marker, and None exactly when there is none |
| Extractors.UpTo | extract_emojis.py:101-102 | the lines before the first end line are a prefix that does not contain it |
| Extractors.WindowLines | extract_emojis.py:95-105 | with no start line the window is empty |
| Extractors.HumanCodePoints | extract_emojis.py:95-107 | with no start-marker line the result is empty and nothing is raised |
| Extractors.ExtractWindow | extract_emojis.py:95-105 | the `started`/`break` loop, given the line decoder, computes the extraction of `WindowLines` with that decoder |
| Extractors.FetchHumanEmojis | extract_emojis.py:87-107 | `fetch_human_emojis` computes `HumanCodePoints` |
| Extractors.WindowBetweenMarkers | extract_emojis.py:98-102 | lines before the start line are ignored; the end line stops the scan and adds nothing |
| Extractors.WindowIgnoresPrefix | extract_emojis.py:98-99 | lines before the start line never matter, even valid records |
| Tables.BuildTableSucceeds | extract_emojis.py:28-32 | the dictionary loop completes exactly when every kept line parses |
| Tables.BuildTableKeys | extract_emojis.py:28-32 | the keys are exactly those of the kept lines that parse |
| Tables.BuildTableLastWins | src/extractors/characterfactory.py:50 | the value under a key comes from the last kept line with that key |
| Tables.OtherKeysUnchanged | src/extractors/characterfactory.py:50 | storing one line's entry leaves every other key as it was |
| Tables.TableErrorPersists | extract_emojis.py:31 | an error on an earlier line is the error of the whole loop |
| Descriptions.StripAll | extract_emojis.py:13 | the list comprehension strips every field and keeps their number |
| Descriptions.DescriptionOfLine | extract_emojis.py:12-16 | succeeds with a code point exactly when field 0 is a number that `chr()` accepts and there is a field 1 |
| Descriptions.FetchCharacterDescriptions | extract_emojis.py:27-34 | the loop computes `DescriptionTable` |
| Descriptions.DescriptionOfRecord | extract_emojis.py:12-16 | a record `CODE;NAME;...` yields CODE's value and the stripped NAME |
| Descriptions.DescriptionWithoutName | extract_emojis.py:15 | a line that is only a code point raises IndexError |
| Descriptions.DescriptionTableSucceeds | extract_emojis.py:28-32 | the table is built exactly when every non-comment, non-blank line is a record |
| Descriptions.DescriptionTableLookup | extract_emojis.py:28-32 | the keys are the records' code points, each named by its last record; `<...>` names are kept |
| Descriptions.LaterRecordOverwrites | extract_emojis.py:32 | a later record for a code point overwrites the earlier name |
| Descriptions.RecordIsRead | extract_emojis.py:29 | a line starting with a hex numeral is neither a comment nor blank |
| Collation.Dedup | extract_emojis.py:42 | `list(set(chars))` holds each input code point exactly once |
| Collation.Insert | extract_emojis.py:43 | insertion into an ascending list keeps it ascending and adds exactly one element |
| Collation.Sort | extract_emojis.py:43 | `sorted()` is ascending and a permutation of its input |
| Collation.SortDistinct | extract_emojis.py:42-43 | sorting distinct code points gives a strictly ascending list |
| Collation.StrictlyIncreasingUnique | extract_emojis.py:43 | two strictly ascending lists with the same elements are equal |
| Collation.Named | extract_emojis.py:44-49 | the naming loop, a described code point giving an Emoji with the lower-cased description and a KeyError skipping it; NamedFacts states what it keeps |
| Collation.NamedFacts | extract_emojis.py:45-49 | the loop keeps exactly the described code points, in order, named by their lower-cased description |
| Collation.CollateSpec | extract_emojis.py:40-50 | strictly ascending, holds exactly the input code points with a description, each named by it in lower case |
| Collation.CollateDependsOnlyOnSet | extract_emojis.py:42 | the result depends only on the set of input code points, not on the set's iteration order |
| Collation.FetchEmojiList | extract_emojis.py:40-50 | `fetch_emoji_list` computes `EmojiList`; the emoji file's error comes before the maths file's |
| Entries.AnnotationKeywords | extract_emojis.py:131 | the `' \| '` split of an annotation gives at least one keyword and joins back to the text |
| Entries.Entry | extract_emojis.py:155-158 | the f-string of one entry; EntryLayout states its layout |
| Entries.EntryLayout | extract_emojis.py:155-158 | entry = character, space, name, and the `<small>(…)</small>` suffix exactly when annotated |
| Entries.CompileEntries | extract_emojis.py:152-162 | one entry per emoji, in order, entry i rendering emoji i |
| Entries.EntriesDistinct | extract_emojis.py:152-162 | emojis with distinct code points render to distinct entries |
| Characters.EffectiveBidiClass | src/extractors/characterfactory.py:13-14 | the supplied class unless it is None or empty, else the database's class; SuppliedClassUsed and DatabaseClassUsed state it |
| Characters.NewCharacter | src/extractors/characterfactory.py:10-15 | fails exactly when `chr()` refuses the code point, with the exception `chr()` raises, and keeps the code point |
| Characters.TitleUnpadded | src/extractors/characterfactory.py:12 | title-casing a name without surrounding white space keeps it without |
| Characters.NameNormalised | src/extractors/characterfactory.py:12 | the stored name has no surrounding white space, is title case, and matches the stripped input up to case |
| Characters.ForceLtrIff | src/extractors/characterfactory.py:15 | `force_ltr` holds exactly for the classes AL, AN, R, RLE, RLI and RLO |
| Characters.SuppliedClassUsed | src/extractors/characterfactory.py:13-15 | a non-empty supplied class is used unchanged; the database does not matter |
| Characters.DatabaseClassUsed | src/extractors/characterfactory.py:13-14 | a missing or empty class is taken from the database |
| Characters.DirectionalChar | src/extractors/characterfactory.py:8-19 | U+200E then the character when `force_ltr` holds, the bare character otherwise |
| Characters.IsKept | src/extractors/characterfactory.py:44 | at least two `;` fields and a name not starting with `<`; SingleFieldNotKept and PlaceholderNotKept state it |
| Characters.CharacterOfLine | src/extractors/characterfactory.py:45-49 | field 0 that is no numeral raises ValueError; a record exists only with a field 4, under the value of field 0 |
| Characters.EntryOfLine | src/extractors/characterfactory.py:45-50 | a record is stored under its own character, which is a code point |
| Characters.CharacterTableKeys | src/extractors/characterfactory.py:50 | every key of the table maps to the record of that character |
| Characters.SingleFieldNotKept | src/extractors/characterfactory.py:44 | a line without `;`, the empty line among them, gives no record |
| Characters.PlaceholderNotKept | src/extractors/characterfactory.py:44 | a line whose name starts with `<` gives no record |
| Characters.SeparatorBeforeCode | src/extractors/characterfactory.py:46 | a kept line whose field 0 starts with U+001C, as in `\x1c0041;A;Lu;0;L`, raises ValueError |
| Characters.RecordOfFields | src/extractors/characterfactory.py:43-49 | a record with at least five fields is stored under field 0 with its normalised name and the direction of field 4 |
| Characters.CharacterTableLookup | src/extractors/characterfactory.py:42-50 | the keys are exactly the kept lines' characters, each holding the record of its last line |
| Characters.LaterLineReplaces | src/extractors/characterfactory.py:50 | a later kept line replaces its character's record and leaves the rest unchanged |
| Characters.CharacterFactory.FetchCharacters | src/extractors/characterfactory.py:30-50 | the loop computes `CharacterTable`; on an error the dictionary holds what the earlier lines stored |
| Characters.CharacterFactory.GetCharacter | src/extractors/characterfactory.py:52-53 | raises what `chr()` raises exactly for a value that is no code point; otherwise the record stored under it when there is one, and None when there is none |
| Characters.NewCharacterFactory | src/extractors/characterfactory.py:27-28 | a factory exists exactly when the loop completes, holding `CharacterTable` |

## Left out

- Network fetches and progress messages. `requests.get`, response
  decoding and `print` are outside the model; each file is given as its
  lines.
- `write_file`. It is file output, and it joins a Python `set` whose
  iteration order is unspecified.
- `fetch_annotations`. The XML parsing through lxml/XPath is a foreign
  library, so the annotations are a given map. Only its `' | '` split is
  modelled, as `Entries.AnnotationKeywords`.
- `DESCRIPTIONS = fetch_character_descriptions()`. This import-time global
  is a parameter of `FetchEmojiList`.
- `unicodedata.bidirectional`. It is a foreign database, so it is a
  function parameter.
- `src/extractors/main.py`. It is entry-point plumbing over extractor
  modules that are not part of this model.
- PyStr.Title and PyStr.Lower: only ASCII letters change case. Python's
  full-Unicode `str.title()` and `str.lower()` also map other cased
  letters; here those are left unchanged and are not treated as cased.
- PyStr.ParseHex: `_` digit separators and non-ASCII digits, which
  `int(s, 16)` accepts, are an error here.
- Collation.Dedup: `list(set(chars))` is modelled by first occurrences,
  because a set's iteration order is unspecified.
  Collation.CollateDependsOnlyOnSet proves that this order never reaches
  the result.
- Entries.Entry: annotations are keyed by the whole `cp` attribute. A key
  of several code points never matches a single character, as in the
  source.
