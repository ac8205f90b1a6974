# Configuration store, modelled in Dafny

This project models the `Configuration` class, an INI-style store of
section/key/value strings, and proves properties of the model. The class
does four things:

- It reads a configuration file line by line. A comment starts at the first
  `#` or `;`. Lines are trimmed of spaces and tabs. `[name]` switches the
  current section. `key = value` stores a pair in the current section.
- It keeps the pairs in a nested map. Callers can set, get, remove and list
  them, and read a value as an integer.
- It writes the map back out as text: a `[section]` header, one `key = value`
  line per key, and a blank line after each section.
- It runs a registered handler for each (section, key) pair that has one.

Module layout, one file per module:

- `wrappers.dfy` (`Wrappers`): the `Option` type used for `std::optional`
  and for `npos`.
- `text.dfy` (`Text`):
  - `std::string::find`, `find_first_not_of` and `find_last_not_of`;
  - `Configuration::trim`;
  - comment stripping.
- `numeric.dfy` (`Numeric`): `std::from_chars` for integer types in base 10,
  as section 23.2.9 of ISO/IEC 14882:2017 describes it, and the whole-string
  check of `get_numeric_value`.
- `store.dfy` (`Store`):
  - the `ConfigData` map, with insertion (`Put`) and removal (`Remove`);
  - the handler registry;
  - what it means for a sequence to list a set once;
  - what it means for a sequence of handler calls to be one full dispatch.
- `parser.dfy` (`Parser`):
  - the loop body of `parse_config_file` as a function of one line;
  - the whole loop as a fold over the file's lines.
- `serialiser.dfy` (`Serialiser`): the text `save_to_file` writes, for a
  given iteration order, and the round trip back through the parser.
- `config.dfy` (`Config`): the class `Configuration`. Its fields are the
  store, the registry and a trace of handler calls. Its methods update them
  in place as the C++ methods do, and are proved against the functions
  above.

How the model stands in for what it cannot see:

- The file to read is a parameter: its lines, or `None` when it cannot be
  opened.
- `SaveToFile` returns the lines it would write.
- A handler is an opaque identity (`HandlerId`). Each call of a handler is
  appended to the `trace` field as an `Invocation`: handler, pair and value.
- `unordered_map` iteration order is unspecified. The loops pick the next
  element with `:|`, and every result is stated for any order.

A value of only tabs is stored as " ", like a value of only spaces. The
all-spaces test at configuration.cpp:68-69 looks only for spaces, but the
whole line is trimmed at configuration.cpp:51 before it is split at `=`, so
whatever follows `=` is either empty or ends in a character that is neither
a space nor a tab. The model follows the code (`Parser.TabsOnlyValue`,
`Parser.KeyLineValue`).

## Model

| member | source | states |
|---|---|---|
| Text.Find | configuration.cpp:58 | the result is the first position of the character, or None when it does not occur |
| Text.FindFirstNotBlank | configuration.cpp:257 | the first position from the start that holds neither a space nor a tab, or None when there is none |
| Text.FindLastNotBlank | configuration.cpp:258 | the last position that holds neither a space nor a tab, or None when there is none |
| Text.Trim | configuration.cpp:256-260 | the result has no space or tab at either end; it is empty exactly when the input holds only spaces and tabs |
| Text.TrimInfix | configuration.cpp:256-260 | the trim is a contiguous piece of the input with only spaces and tabs cut from either side |
| Text.TrimPadded | configuration.cpp:256-260 | a trimmed string with blanks around it trims back to itself |
| Text.TrimTrim | configuration.cpp:256-260 | trimming twice is trimming once |
| Text.TrimKeepsCarriageReturn | configuration.cpp:257-258 | only space and tab are removed; a carriage return stays |
| Text.CommentPos | configuration.cpp:37-41 | the position of the first `#` or `;`, the smaller of the two searches, or None when neither occurs |
| Text.StripComment | configuration.cpp:37-49 | the result is the prefix of the line before its first comment character and holds none |
| Text.StripCommentAt | configuration.cpp:44-49 | text free of comment characters followed by a comment is cut exactly at the comment |
| Parser.ParseLine | configuration.cpp:36-79 | one line never leaves a section without keys; it changes the map or the section, never both; `ParseLines` folds it over the lines and `ParseFile` starts that fold in section "" or leaves the store alone when the file cannot be opened |
| Parser.CommentOrBlankLine | configuration.cpp:37-53 | a line that is blank once its comment is cut changes neither the map nor the section |
| Parser.CommentOnlyLine | configuration.cpp:44-53 | a line holding only a comment, even one with `=` in it, changes nothing |
| Parser.HeaderAnatomy | configuration.cpp:37-56 | a header with blanks inside and out, and an optional comment, switches to the name and leaves the map alone, even when the name holds `=` |
| Parser.HeaderWithDelimiter | configuration.cpp:55-56 | `[a=b]` names section `a=b` and stores nothing |
| Parser.PaddedHeader | configuration.cpp:37-56 | `  [ server ] ; main` switches to section `server` |
| Parser.LineWithoutDelimiter | configuration.cpp:58-62 | a non-header line without `=` is skipped |
| Parser.NoDelimiterLine | configuration.cpp:58-62 | the line `no delimiter` changes nothing |
| Parser.KeyLineParts | configuration.cpp:37-78 | any line `pre = post` followed by an optional comment, with no `=` in `pre` and not a header once trimmed, stores key `Trim(pre)` (possibly empty or starting with `[`) with value " " when `post` is only blanks and `Trim(post)` otherwise, in the current section |
| Parser.KeyLineAnatomy | configuration.cpp:37-78 | a line of blanks, a non-empty key that does not start with `[`, blanks, `=`, blanks, value, blanks and comment stores exactly that key and value, and " " when the value is missing |
| Parser.EmptyKeyLine | configuration.cpp:58-64 | `= v` stores value `v` under the empty key |
| Parser.BracketKeyLine | configuration.cpp:55-65 | `[a = b`, which opens with `[` but does not close with `]`, stores key `[a` with value `b` |
| Parser.KeyLineValue | configuration.cpp:64-76 | the stored value (`ValueOf` of the text after `=`) is exactly " " when only blanks follow the first `=`, since the line was trimmed first; otherwise it is the non-empty trimmed rest |
| Parser.RawValueAllSpaces | configuration.cpp:51-69 | on a trimmed line, the text after `=` is all spaces only when it is empty |
| Parser.SplitAtFirstDelimiter | configuration.cpp:58-65 | `k = a=b` stores key `k` with value `a=b` |
| Parser.TrailingComment | configuration.cpp:37-78 | `key = value # note` stores `value` |
| Parser.SpacesOnlyValue | configuration.cpp:68-72 | `key =   ` stores " " |
| Parser.TabsOnlyValue | configuration.cpp:51-72 | `k =` followed by tabs also stores " " |
| Parser.ParseLinesAppend | configuration.cpp:34-80 | reading two runs of lines is reading the first, then the second from where it stopped |
| Parser.ParseLinesNoEmptySection | configuration.cpp:78 | reading lines never leaves a section without keys |
| Parser.ParseFileNoEmptySection | configuration.cpp:26-81 | reading a file, or failing to open it, keeps every section non-empty |
| Parser.ParseLinesTidy | configuration.cpp:64-78 | every stored value is " " or a non-empty string with no blank at either end |
| Parser.RepeatedHeader | configuration.cpp:33-78 | a repeated `[server]` header resumes the section, so both `port` and `host` end up in it |
| Parser.KeysBeforeHeader | configuration.cpp:33-78 | pairs before any header go to section ""; a later line for the same key overwrites |
| Store.Put | configuration.cpp:104 | the section is created when absent; the key is inserted or overwritten; every other section and key keeps its value; no section is left empty |
| Store.Remove | configuration.cpp:144-149 | the key is erased; the section goes exactly when it held only that key; other keys keep their values; other sections are unchanged |
| Store.EraseSteps | configuration.cpp:144-149 | erasing the key, then the section when it became empty, is `Remove` |
| Store.RemoveElsewhere | configuration.cpp:144-149 | every other pair keeps its presence and its value |
| Store.RemovePut | configuration.cpp:101-153 | removing a newly added key gives back the store as it was |
| Store.PutRemove | configuration.cpp:101-153 | putting back a removed value gives back the store as it was |
| Store.EnumerationSize | configuration.cpp:167-174 | a list that names each element of a set once has as many entries as the set |
| Store.DispatchUnique | configuration.cpp:83-97 | two full dispatches of the same store and registry make the same calls, each the same number of times |
| Numeric.FromChars | configuration.hpp:58 | invalid argument exactly when no digit follows the optional `-` of a signed type, and then nothing consumed and the value untouched; otherwise consumption stops at the first non-digit, and the code is ok with the signed value of the digits exactly when that value fits the type, out of range with the value untouched when it does not |
| Numeric.ParseWhole | configuration.hpp:58-62 | a value only when the whole string is a numeral of the type and in range, and then the numeral's value |
| Numeric.FromCharsWhole | configuration.hpp:58-59 | from_chars succeeds on the whole string exactly when the string is an in-range numeral |
| Numeric.ParseWholeToDecimal | configuration.hpp:58-62 | the decimal text of any in-range integer reads back as that integer |
| Numeric.ParseWholeExamples | configuration.hpp:58-62 | `12` gives 12; `-7` gives -7 for a signed type |
| Numeric.ParseWholeRejectsMalformed | configuration.hpp:59-60 | `12abc`, ` 12`, `+12` and the empty string give None |
| Numeric.ParseWholeRejectsOutOfRange | configuration.hpp:59-60 | `-7` for an unsigned type and `256` for an 8-bit unsigned type give None |
| Serialiser.TrimKeyValueLine | configuration.cpp:210 | a written `k = v` line trims to the key, `=`, and the value, with the single-space value leaving nothing after `=` |
| Serialiser.ParseKeyValueLine | configuration.cpp:58-78 | reading a written key line stores that key and value in the current section |
| Serialiser.ParseSectionHeader | configuration.cpp:55-56 | reading a written header switches to that section |
| Serialiser.ParseBlock | configuration.cpp:204-214 | reading one written section into a store without it adds exactly that section |
| Serialiser.SerialiseRoundTrip | configuration.cpp:200-215 | for any iteration order, reading the text `Serialise` writes (one `Block` per section: header, `KeyLines`, blank line) back gives the same store, when names and values are saveable |
| Serialiser.SerialiseFrame | configuration.cpp:200-215 | the text depends only on the key order of the sections it lists |
| Config.Configuration.constructor | configuration.cpp:4-12 | the store is the file's contents; the handlers are the given ones; with `apply` every stored pair that has a handler is called once with its value, and without it nothing is called |
| Config.Configuration.ReloadConfigFromFile | configuration.cpp:14-18 | in-memory changes are discarded; the store is the file's contents; the new calls are one full dispatch |
| Config.Configuration.RegisterConfigHandler | configuration.cpp:20-24 | the handler for the pair is installed or replaced, the others are kept, and nothing is called |
| Config.Configuration.ParseConfigFile | configuration.cpp:26-81 | the store becomes the fold of the lines over the old store, starting in section ""; no section is left empty |
| Config.Configuration.ReadLine | configuration.cpp:36-79 | one pass of the loop body has the effect of `ParseLine` on the store and the current section |
| Config.Configuration.SetValue | configuration.cpp:101-112 | returns true; afterwards the pair holds the value and is present, its section is present, every other pair is unchanged; with `apply` the pair's handler is called once with the value |
| Config.Configuration.GetValue | configuration.cpp:114-126 | a value exactly when the section and key are present, and then the stored one |
| Config.Configuration.IsOn | configuration.cpp:128-131 | true exactly when the stored value is the string "on" |
| Config.Configuration.GetNumericValue | configuration.hpp:51-63 | None when nothing is stored; otherwise a value exactly when the whole stored string is an in-range numeral of the type |
| Config.Configuration.RemoveValue | configuration.cpp:133-153 | false and no change when the pair is absent; otherwise true, the key erased, the section erased exactly when it had no other key; afterwards the pair is absent and no section is empty |
| Config.Configuration.HasSection | configuration.cpp:155-157 | a section is present exactly when some key in it holds a value |
| Config.Configuration.HasValue | configuration.cpp:159-165 | the same answer as `GetValue` being present |
| Config.Configuration.GetSections | configuration.cpp:167-174 | every section name once, and nothing else |
| Config.Configuration.GetKeys | configuration.cpp:176-186 | every key of the section once; none for an absent section |
| Config.Configuration.SectionBlock | configuration.cpp:203-214 | the header, one line per key with each key once, and the blank line |
| Config.Configuration.SaveToFile | configuration.cpp:200-215 | the lines are the serialisation of the store in some order that lists every section and key once, and they read back as the same store when names and values are saveable |
| Config.Configuration.ApplyConfigLogic | configuration.cpp:83-97 | the calls appended are one full dispatch: each stored pair with a handler is called once, with its value, through its handler, and nothing else is called |
| Config.Configuration.ApplyConfigLogicForKey | configuration.cpp:237-252 | one call with the stored value when the pair has both a value and a handler; otherwise nothing is called |

## Left out

- Opening and reading the file (`std::ifstream`) is not modelled. The
  parser takes the lines `std::getline` would yield, or `None` for a file
  that cannot be opened.
- Writing the file (`fs_utils::create_file`, `std::ofstream`,
  `file.good()`) is not modelled. The `bool` that `save_to_file` returns
  depends only on those, so it is left out too. So is the overload that
  saves to `config_path`.
- `config_path` is not modelled, and neither is `fs_utils::expand_tilde`
  applied to it. The file arrives as its lines.
- `backup_config` is not modelled. It only copies a file with
  `std::filesystem::copy_file`.
- `console_logger` is not modelled. Its calls are diagnostics with no
  effect on the store.
- Handler bodies are not modelled: they are opaque `std::function`s and are
  known here by an identity. An exception a handler throws, and its
  `try`/`catch` in `apply_config_logic_for_key`, are not modelled either.
- `PairHash` is not modelled. The registry is a map keyed by the pair
  itself, so only pair equality matters.
- `unordered_map` iteration order is not fixed by the model. Results are
  stated for every order.
- The floating-point instantiations of `get_numeric_value` are not
  modelled. Only integer types are, as ranges.
- Config.Configuration.RemoveValue: its own contract states the new store
  as `Store.Remove` of the old one. It does not spell out "every other pair
  unchanged" itself. `Store.Remove` and `Store.RemoveElsewhere` state that.
- Serialiser.SerialiseRoundTrip requires the store to be saveable:
  - section names and keys are trimmed and free of `#`, `;` and newlines;
  - keys hold no `=` and do not start with `[`;
  - values are " " or non-empty and trimmed, and free of `#`, `;` and
    newlines.

  Other stores do not read back unchanged. Every value the parser stores
  has the value part of this shape (`Parser.ParseLinesTidy`).
