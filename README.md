# cmdlp, modelled in Dafny

cmdlp is a header-only C++ library for command-line options. A program registers
options on an `OptionParser`. Each option is a toggle (`-v/--verbose`) or a value
option (`-d/--double 0.2`), and may be marked required. The program then calls
`parseOptions` once and afterwards queries the results with `hasOption` and
`getOption`. `getHelp` renders one column-aligned row per option.

The model has four modules, one per header:

- `OptionTypes` (`option.dfy`) models `Option`, `ToggleOption` and `ValueOption`.
  - They become one datatype, `Toggle | Value`.
  - `dynamic_cast` becomes `match`.
  - The constructors store their arguments verbatim, as datatype constructors do.
- `LineParsing` (`line_parser.dfy`) models the token scanner `LineParser`.
  - It keeps the arguments after the program name.
  - It answers "is this token present" and "which token follows this flag".
  - It uses the `_starts_with` loop to reject followers that look like flags.
- `OptionLists` (`option_list.dfy`) models the registry `OptionList`.
  - A duplicate check on both flags.
  - A first-match linear lookup.
  - Two running maxima, one for the long-flag width and one for the value width.
  - One `Query` datatype and one scan (`Find`, specified by `First`) cover every scan in the source:
    - `findOption` and `optionExhists` in `option_list.hpp`, which skip empty query fields;
    - `findOption(char)` and `findOption(string)` in `cmdlp.hpp`, which compare exactly;
    - the duplicate loops of both `addOption`s.
- `Cmdlp` (`cmdlp.dfy`) models the driver `OptionParser`.
  - It registers the built-in `-h/--help` toggle.
  - It parses in one pass, where the short flag takes precedence.
  - Every lookup waits until parsing is done.
  - It renders the help text.
  - `std::exit(1)` and the `OptionExistException` throw become results: `Exit(DuplicateOption | MissingRequired | NotParsed)` and `AlreadyExists`. Nothing is printed.

The classes keep the source's mutable state as fields:
- `OptionList`: `options`, `longestOption` and `longestValue`.
- `OptionParser`: `options`, `parsed`, `longestOption` and `longestValue`.
- `LineParser`: `tokens`, a constant.

Their methods state the whole new state in terms of specification functions. The
properties the library promises are proved about those functions as lemmas:
- what parsing does to one entry: `Parsed` and `Missing`;
- the first match: `First`;
- the help text: `HelpLine` and `Help`;
- the maximum widths: `MaxOptsLength` and `MaxValueLength`.

Some behaviours of the code are easy to miss; the model follows the code:

- The help entry is pushed in the constructor without updating the widths. A fresh
  parser therefore has both widths 0, and the widths never account for the help row.
  The invariant is stated over `options[1..]`, and `Cmdlp.FreshHelpText` shows the
  unpadded row.
- `parseOptions` never updates the value width after assigning a parsed value.
  `OptionList::updateLongestValue` exists, but `OptionParser` does not call it. The help
  after parsing uses the widths from registration time, so the invariant on the value
  width only holds before parsing.
- `OptionParser::findOption(string)` compares the long flag exactly, even with the empty
  string. `OptionList::findOption` skips empty query fields. Both behaviours are kept,
  as `ByLong` and `ByFields`.
- `LineParser::getOption(char)` looks up the token spelled by the C string `{c, NUL}`.
  That is the bare one-character token (`"d"`) for `'d'`, and the empty token for NUL.
  Meanwhile `hasOption(char)` looks for `"-d"`. The model keeps this asymmetry and
  `LineParsing.CharLookupAsymmetry` exhibits it. `LineParsing.NulCharLookup` shows the
  NUL case.

## Model

| member | source | states |
|---|---|---|
| OptionTypes.RenderValue | include/cmdlp/cmdlp.hpp:204-208 | the rendered value is a value option's value verbatim; for a toggle it is "true" exactly when toggled and "false" exactly when not |
| OptionTypes.ValueLength | include/cmdlp/option.hpp:59-92 | get_value_length is the value's length for a value option and the length of "false" (5) for every toggle, whatever its state |
| OptionTypes.OptcToString | include/cmdlp/cmdlp.hpp:216-221 | the short flag built from a character is two characters long: a dash followed by that character |
| OptionTypes.ValueLengthCoversRendered | include/cmdlp/option.hpp:59-92 | the reserved width is never smaller than the rendered value ("true" and "false" both fit in 5), and equals it for value options |
| LineParsing.ToLower | include/cmdlp/line_parser.hpp:105 | upper-case ASCII letters map to the matching lower-case letter and every other character to itself |
| LineParsing.StartsWithScan | include/cmdlp/line_parser.hpp:81-113 | the scan that counts n down and stops at the first mismatch returns exactly StartsWith: both strings are non-empty, the prefix fits, and its first n characters (all of them when n is not in 1..length-1) agree, compared case-sensitively or under tolower |
| LineParsing.StartsWithDash | include/cmdlp/line_parser.hpp:35 | with the default arguments, a token "starts with -" exactly when its first character is a dash |
| LineParsing.IndexOf | include/cmdlp/line_parser.hpp:33 | std::find gives the position of the first occurrence, or the length when the token is absent |
| LineParsing.LineParser.constructor | include/cmdlp/line_parser.hpp:21-26 | the tokens are argv[1..] in order; argv[0] is dropped |
| LineParsing.LineParser.GetOption | include/cmdlp/line_parser.hpp:31-41 | a non-empty result never starts with a dash and is the token right after the first occurrence of the flag; the result is empty when the flag is absent, when it is the last token, or when the follower starts with a dash; otherwise it is the follower |
| LineParsing.CString | include/cmdlp/line_parser.hpp:48-51 | the string read back from the buffer {c, NUL}: empty exactly when c is NUL, otherwise the single character c |
| LineParsing.LineParser.GetOptionChar | include/cmdlp/line_parser.hpp:46-52 | the char lookup is the string lookup of the one-character token c, and of the empty token when c is NUL; a non-empty result means that token is on the command line and the value does not start with a dash |
| LineParsing.NulCharLookup | include/cmdlp/line_parser.hpp:46-52 | getOption('\0') finds the value after an empty token: with tokens "" and "x" it returns "x" |
| LineParsing.LineParser.HasOption | include/cmdlp/line_parser.hpp:57-60 | true exactly when the flag is one of the tokens |
| LineParsing.LineParser.HasOptionChar | include/cmdlp/line_parser.hpp:65-71 | true exactly when "-c" is one of the tokens |
| LineParsing.CharLookupAsymmetry | include/cmdlp/line_parser.hpp:46-71 | on "-d 5", hasOption('d') holds and getOption("-d") is "5", yet getOption('d') is empty |
| OptionLists.First | include/cmdlp/option_list.hpp:170-179 | the reference first-match scan: a found position holds the first matching entry, and None means no entry matches |
| OptionLists.Find | include/cmdlp/option_list.hpp:170-179 | the early-return iterator loop returns exactly the first match |
| OptionLists.MaxOptsLengthIsMax | include/cmdlp/option_list.hpp:126-127 | the running long-flag width bounds every entry's long flag and, when there are entries, is reached by one of them |
| OptionLists.MaxValueLengthIsMax | include/cmdlp/option_list.hpp:128-129 | the running value width bounds every entry's get_value_length and, when there are entries, is reached by one of them |
| OptionLists.MaxLengthsAppend | include/cmdlp/option_list.hpp:125-129 | after appending, each width is the maximum of the old width and the new option's length |
| OptionLists.AppendKeepsUnique | include/cmdlp/option_list.hpp:119-125 | appending an option whose flags clash with no entry keeps all short flags and all long flags distinct |
| OptionLists.AddKeepsInvariant | include/cmdlp/option_list.hpp:117-130 | a successful add keeps the registry invariant: unique flags, an exact long-flag width, and a value width that covers every entry |
| OptionLists.FirstAfterAppend | include/cmdlp/option_list.hpp:170-179 | appending never changes an earlier lookup's answer; the new entry is found only when nothing before it matches |
| OptionLists.LookupFindsOwnEntry | include/cmdlp/option_list.hpp:170-179 | with unique flags, looking up an entry's own short or long flag (exactly, or as the only non-empty query field) finds that entry |
| OptionLists.CopyEntries | include/cmdlp/option_list.hpp:53-65 | the copy loop re-creates every entry as the same variant with the same fields, in order |
| OptionLists.OptionList.constructor | include/cmdlp/option_list.hpp:41-46 | a new list is empty with both widths 0, and satisfies the invariant |
| OptionLists.OptionList.Copy | include/cmdlp/option_list.hpp:48-66 | the copy holds the same entries in the same order and the same two widths |
| OptionLists.OptionList.AddOption | include/cmdlp/option_list.hpp:117-130 | fails exactly when a flag clashes, reporting the offered option and the first clashing entry and changing nothing; otherwise appends the option last and raises both widths to max(old, new); the invariant is kept |
| OptionLists.OptionList.OptionExists | include/cmdlp/option_list.hpp:159-168 | true exactly when some entry matches a non-empty query field; always false for two empty fields |
| OptionLists.OptionList.FindOption | include/cmdlp/option_list.hpp:170-179 | the first entry whose short flag equals a non-empty optc or whose long flag equals a non-empty opts; None (NULL) when there is none |
| OptionLists.OptionList.GetLongestOption | include/cmdlp/option_list.hpp:142-145 | the stored long-flag width bounds every entry, is reached by one, and is 0 for an empty list |
| OptionLists.OptionList.GetLongestValue | include/cmdlp/option_list.hpp:147-150 | the stored value width covers every entry's get_value_length |
| OptionLists.OptionList.UpdateLongestValue | include/cmdlp/option_list.hpp:152-156 | the value width becomes max(old, length) and never shrinks; the entries and the long-flag width stay unchanged |
| OptionLists.OptionList.GetOptionString | include/cmdlp/option_list.hpp:212-225 | the first matching entry's rendered value, or "" when nothing matches |
| Cmdlp.Parsed | include/cmdlp/cmdlp.hpp:86-110 | parsing one entry keeps its flags, description, variant and required mark |
| Cmdlp.SameFlagsKeepInvariant | include/cmdlp/cmdlp.hpp:80-113 | two lists with the same flags at every position are equally unique and have the same long-flag width, so parsing keeps the invariant |
| Cmdlp.ValuePrecedence | include/cmdlp/cmdlp.hpp:86-94 | a value after the short flag wins; the long flag is consulted only when the short one yields nothing; with neither, the entry keeps its default |
| Cmdlp.ParsedValueFromTokens | include/cmdlp/cmdlp.hpp:86-94 | a value that parsing assigns is non-empty, does not start with a dash, and is the token right after one of the option's flags |
| Cmdlp.ToggleParsing | include/cmdlp/cmdlp.hpp:101-110 | a toggle ends up set exactly when it was set already or either flag is a token; parsing never clears a toggle |
| Cmdlp.ParseIdempotent | include/cmdlp/cmdlp.hpp:86-110 | parsing a parsed entry again changes nothing and does not change whether it is missing |
| Cmdlp.ShortFlagTokenWins | include/cmdlp/cmdlp.hpp:88-90 | for any command line: when the first occurrence of a value option's short flag is followed by a token that does not start with a dash, that token becomes the value |
| Cmdlp.LongFlagTokenFallback | include/cmdlp/cmdlp.hpp:92-94 | for any command line: when the short flag yields nothing and the first occurrence of the long flag is followed by a token that does not start with a dash, that token becomes the value |
| Cmdlp.ShortFlagWinsExample | include/cmdlp/cmdlp.hpp:88-90 | with "-d 1.0 --double 2.0" the value option -d/--double receives "1.0" |
| Cmdlp.FlagAfterFlagIsMissing | include/cmdlp/cmdlp.hpp:95-100 | with "--verbose --double" a required -d/--double finds no value and is missing |
| Cmdlp.Spaces | include/cmdlp/cmdlp.hpp:202-203 | the padding run has the requested length and holds only spaces |
| Cmdlp.PadRight | include/cmdlp/cmdlp.hpp:202 | left alignment: the text is kept whole at the start, spaces fill up to the width, and nothing is truncated |
| Cmdlp.PadLeft | include/cmdlp/cmdlp.hpp:203-207 | right alignment: spaces come first, the text is kept whole at the end, and nothing is truncated |
| Cmdlp.LinesAppend | include/cmdlp/cmdlp.hpp:199-211 | rendering rows one after another distributes over concatenation of the entries |
| Cmdlp.HelpLineFlagColumn | include/cmdlp/cmdlp.hpp:200-203 | when the long flag fits the width, a row starts with "    [optc] ", the long flag follows, and " (" sits at a column fixed by the long-flag width |
| Cmdlp.HelpLineValueColumn | include/cmdlp/cmdlp.hpp:203-210 | when both fit their widths, the value ends at a column fixed by both widths, and ") : ", the description and a newline follow |
| Cmdlp.HelpLineFlagPadding | include/cmdlp/cmdlp.hpp:202 | when the long flag fits the width, every column between its end and the width is a space |
| Cmdlp.HelpLineValuePadding | include/cmdlp/cmdlp.hpp:203-208 | when both fit their widths, every column between " (" and the start of the right-aligned value is a space |
| Cmdlp.HelpLineLayout | include/cmdlp/cmdlp.hpp:200-210 | the whole layout of one help row: its length, the short-flag prefix, the left-aligned long flag followed by spaces up to the width, " (", spaces then the right-aligned value, and the tail |
| Cmdlp.HelpConcat | include/cmdlp/cmdlp.hpp:193-213 | the help of two lists of entries is the help of the first followed by the help of the second, so rows keep the registration order |
| Cmdlp.FreshHelpText | include/cmdlp/cmdlp.hpp:22-30 | a fresh parser's help is the single unpadded row "    [-h] --help (false) : Shows this help for the program." |
| Cmdlp.OptionParser.constructor | include/cmdlp/cmdlp.hpp:22-30 | the tokens are argv[1..]; the only entry is the -h/--help toggle, unset; not parsed; both widths 0 |
| Cmdlp.OptionParser.AddOption | include/cmdlp/cmdlp.hpp:39-58 | exits exactly when a flag clashes with an entry (the help entry included), naming the first such entry and changing nothing; otherwise appends the option and raises both widths to max(old, new); the invariant is kept |
| Cmdlp.OptionParser.AddToggle | include/cmdlp/cmdlp.hpp:72-78 | registers Toggle("-c", opts, description, toggled): exits exactly when a flag clashes, naming the first clashing entry and leaving entries and widths unchanged; otherwise appends it and raises both widths to max(old, new); the parsed flag never changes |
| Cmdlp.OptionParser.AddValue | include/cmdlp/cmdlp.hpp:60-70 | registers Value("-c", opts, description, value, required): exits exactly when a flag clashes, naming the first clashing entry and leaving entries and widths unchanged; otherwise appends it and raises both widths to max(old, new); the parsed flag never changes |
| Cmdlp.OptionParser.ParseOptions | include/cmdlp/cmdlp.hpp:80-113 | succeeds exactly when no entry is a required value option without a value, and then every entry is parsed and the parser is marked parsed; otherwise it exits at the first missing entry with the help text of the state at that point, where the earlier entries are parsed and the rest untouched; the widths never change |
| Cmdlp.OptionParser.ParseEntries | include/cmdlp/cmdlp.hpp:85-111 | the pass over the entries stops at the first missing required option, or goes through them all exactly when none is missing; the entries before the stop are parsed and the others left as they were |
| Cmdlp.OptionParser.ParseEntry | include/cmdlp/cmdlp.hpp:86-110 | the loop body for one entry reports it missing exactly when Missing holds, and otherwise produces Parsed of it |
| Cmdlp.OptionParser.FindOptionChar | include/cmdlp/cmdlp.hpp:223-236 | exits before parsing; afterwards returns the first entry whose short flag is "-c", or None |
| Cmdlp.OptionParser.FindOptionLong | include/cmdlp/cmdlp.hpp:238-250 | exits before parsing; afterwards returns the first entry whose long flag equals the argument exactly, or None |
| Cmdlp.OptionParser.HasOptionChar | include/cmdlp/cmdlp.hpp:177-191 | exits before parsing; afterwards true exactly when the first entry with short flag "-c" has a non-empty value or is a set toggle |
| Cmdlp.OptionParser.HasOptionLong | include/cmdlp/cmdlp.hpp:158-172 | exits before parsing; afterwards true exactly when the first entry with that long flag has a non-empty value or is a set toggle |
| Cmdlp.OptionParser.GetOptionChar | include/cmdlp/cmdlp.hpp:274-287 | exits before parsing; afterwards the rendered value of the first entry with short flag "-c", or "" |
| Cmdlp.OptionParser.GetOptionLong | include/cmdlp/cmdlp.hpp:259-272 | exits before parsing; afterwards the rendered value of the first entry with that long flag, or "" |
| Cmdlp.OptionParser.GetHelp | include/cmdlp/cmdlp.hpp:193-213 | the stream loop produces exactly Help of the entries at the stored widths: one HelpLine per entry, in order |
| Cmdlp.RegisteredRowsAligned | include/cmdlp/cmdlp.hpp:51-57 | before parsing, the stored widths cover every registered row, so HelpLineLayout applies to all of them and their columns line up |

## Left out

- The generic `getOption<T>` of both classes is not modelled, because it converts text through `std::stringstream >>`, falling back to `T(0)` (cmdlp.hpp:115-153, option_list.hpp:181-205). Only the `std::string` specialisations are modelled.
- `addVOption` turns its default into text with a `std::stringstream`; `Cmdlp.OptionParser.AddValue` takes that text directly.
- Messages on `std::cerr` are not modelled, and `std::exit(1)` ends in an `Exit` result rather than stopping the process. The text of `OptionExistException` is reduced to the offered option and the existing one.
- Heap ownership, `new`/`delete` and the destructors are not modelled; entries are values.
- The raw `argc`/`argv` is not modelled; the command line is a sequence of strings.
- The static scratch buffers are modelled as pure values: `optc_to_string`'s static string and `getOption(char)`'s `sopt`. So is the `&prefix == &source` identity shortcut in `_starts_with`, which the parser never triggers because it always passes the literal "-".
- `option_list.hpp` calls `cmdlp::optc_to_string`, which none of the four headers defines at namespace level. The model assumes it is the `OptionParser` helper, a dash followed by the character.
- The `OptionList` overloads taking a `char`, a `std::string` or an `Option*` (option_list.hpp:74-115) are not separate members. They forward to the two-field versions with one field empty, or with the option's own fields, which is how `OptionExists`, `FindOption` and `GetOptionString` are called.
- `LineParsing.ToLower`: only ASCII letters are folded; locale-dependent `tolower` and negative `char` values are not modelled.
- The widths and lengths are unbounded naturals. `get_value_length` returns `unsigned` (option.hpp:89-92), the stored widths are `unsigned` (cmdlp.hpp:255-256) and `std::setw` takes an `int` (cmdlp.hpp:202-203). The model assumes every length fits in `unsigned` and `int`, which command-line strings, being far shorter, always do.
- `OptionLists.OptionList.GetLongestValue`: it states only that the width covers every entry, not that an entry reaches it, because `updateLongestValue` may have raised it beyond every entry.
- `test/test_cmdlp.cpp` is not modelled: it calls an overload of `addOption` that the headers do not declare.
