# freshclam.conf editor, modelled in Dafny

The program rewrites a ClamAV `freshclam.conf`. It reads the file into a list of
records, one per line (`ParsedConfig`, a list of `ParsedConfigItem`). Then it
replaces the values of chosen directives: `DNSDatabaseInfo`, `DatabaseMirror`,
`PrivateMirror`, and any `"Name value"` pairs given with `--custom-value`. Last, it
writes the list back as text.

This project models that core as pure functions on immutable values:

- `Line` is one line. `ParseLine` is `add_line`'s classification, `RenderItem` is
  `serialize` for one record, and there is a round-trip theorem.
- `Config` is the document. It has `read`, `get_config_values`, and
  `replace_config_values`. The replacement is written twice: once as a functional
  definition, and once as the source's three in-place loops. The two are proved equal.
- `Custom` is `replace_custom_values`: parsing, first-seen grouping, and the per-name
  replacement. There is a functional definition and an in-place version of the two
  loops.
- `Serializer` is `serialize`: the appended blank line, the empty-document error, and
  text-level read-back.
- `Fixer` is the fixed sequence the command runs on a document.
- `Text` and `Base` hold the helpers. `Text` covers Python's `str.strip`, the `\s+`
  split, `'\n'.join`, and line iteration over a file. `Base` holds `Option` and
  `Result`.

Whitespace is Python's `str.isspace` set, written out character by character. On
`str` patterns, Python's `re` `\s` matches the same set.

Three behaviours of the code are easy to misread:

- `replace_config_values` puts the new block where the FIRST original occurrence of
  the name was. The code collects the
  indexes in descending order, then inserts at `val_indexes[-1]`, which is the smallest
  index. Because that index comes before every deleted record, it does not shift
  (`Config.FirstMatchIsSmallestIndex`, `Config.ReplaceBlock`).
- `serialize` adds a blank last line only when the last rendered line is not blank. It
  does not collapse trailing blank lines. So reading the output back drops one final
  blank record (`Serializer.ReadSerialize`).
- `serialize` of an empty document is an error. `res[-1]` raises `IndexError`, so it
  does not return an empty string.

## Model

| member | source | states |
|---|---|---|
| Text.Strip | synology-freshclam-fixer.py:98 | `strip()` leaves no whitespace at either end |
| Text.StripSpec | synology-freshclam-fixer.py:98 | `strip()` removes only whitespace, and only at the two ends |
| Text.StripAppendSpace | synology-freshclam-fixer.py:98 | One more trailing whitespace character, such as the kept newline, does not change the stripped text |
| Text.SplitAtSpaceRun | synology-freshclam-fixer.py:102-104 | The `\s+` split with at most one split gives one part exactly when the text has no whitespace. Otherwise it gives a whitespace-free head, the first whitespace run, and a tail that does not start with whitespace |
| Text.SplitAtSpaceRunOf | synology-freshclam-fixer.py:102 | A whitespace-free head, a whitespace run, and a tail not starting with whitespace split exactly there |
| Text.SplitAtChar | synology-freshclam-fixer.py:108-109 | `split('#', 1)` gives no split exactly when `#` is absent. Otherwise it splits at the first `#` |
| Text.SplitAtCharOf | synology-freshclam-fixer.py:109 | The split on `#` happens at its first occurrence |
| Text.FileLines | synology-freshclam-fixer.py:72-74 | Iterating over a file gives lines that concatenate to its text. Each line keeps its newline, only the last may lack one, and no line has a newline before its end |
| Text.FileLinesOfJoin | synology-freshclam-fixer.py:95 | Iterating over newline-joined lines whose last line is blank gives the other lines back, each with its newline |
| Line.ParseLine | synology-freshclam-fixer.py:97-110 | A line is a plain record, holding its stripped text, exactly when the stripped line starts with `#` or has no whitespace. Otherwise it is a directive: a non-empty, whitespace-free name that does not start with `#`, and a trimmed value without `#`. A directive has a non-empty value when it has no comment, and a trimmed comment otherwise. Every parsed record is canonical, or is a directive with an empty comment |
| Line.ParseRemainder | synology-freshclam-fixer.py:106-110 | The text after the name is the value when it holds no `#`. Otherwise the value is `strip()` of the text before its first `#` and the comment is `strip()` of the text after it |
| Line.ParseDirective | synology-freshclam-fixer.py:102-110 | A stripped line `name sep rest`, where `rest` holds no `#`, parses as directive `name` with value `rest` and no comment |
| Line.ParseDirectiveWithComment | synology-freshclam-fixer.py:102-110 | A stripped line `name sep before#after`, where `before` holds no `#`, parses as directive `name` with value `strip(before)` and comment `strip(after)` |
| Line.ExampleDirectiveWithComment | synology-freshclam-fixer.py:108-109 | `Foo bar # baz` parses as directive `Foo`, value `bar`, comment `baz` |
| Line.ParseNameAlone | synology-freshclam-fixer.py:102-104 | A name followed only by whitespace is a plain record holding just the name |
| Line.ParseEmptyValueAndComment | synology-freshclam-fixer.py:106-110 | `name #` (for instance `Foo #`) parses as a directive with an empty value and an empty comment |
| Line.RenderItem | synology-freshclam-fixer.py:84-90 | Rendering one record; its meaning is stated by `Line.RoundTrip` (a rendering parses back exactly for canonical records) and `Line.ExampleRenderWithComment` |
| Line.RoundTripPlain | synology-freshclam-fixer.py:84-88 | A comment-free directive with a non-empty value renders as `name value`, and that parses back to the same record |
| Line.ParseCommented | synology-freshclam-fixer.py:97-110 | `name value<ws># c` parses back into name, value and comment, whatever the whitespace before `#` |
| Line.ParseCommentedEmptyValue | synology-freshclam-fixer.py:97-110 | `name<ws># c` parses as a directive with an empty value and comment `c` |
| Line.RoundTripCommented | synology-freshclam-fixer.py:84-88 | A directive with a non-empty trimmed comment renders as `name value  # comment`, and that parses back to the same record |
| Line.RoundTripLosesEmptyComment | synology-freshclam-fixer.py:86-87 | An empty comment is not rendered (`if item.comment` is false), so the record does not parse back |
| Line.RoundTripCanonical | synology-freshclam-fixer.py:84-90 | Every canonical record parses back from its rendering |
| Line.RoundTrip | synology-freshclam-fixer.py:84-110 | Parsing a rendered record gives that record back if and only if it is canonical |
| Line.ExampleRenderWithComment | synology-freshclam-fixer.py:85-87 | Directive `Foo`, value `bar`, comment `baz` renders as `Foo bar  # baz` |
| Line.RenderParseEmptyComment | synology-freshclam-fixer.py:84-110 | A directive with an empty comment renders the same after one more parse and render if and only if its value is non-empty; `Foo #` renders as `Foo ` and comes back as `Foo` |
| Line.RenderParseStable | synology-freshclam-fixer.py:84-110 | For any parsed line, rendering is stable under one more parse and render, except in one case: a directive with an empty value and an empty comment, which loses its trailing space and becomes a plain record |
| Config.Read | synology-freshclam-fixer.py:69-75 | Reading gives one record per line, in order; record `i` is the parse of line `i` |
| Config.ReadText | synology-freshclam-fixer.py:69-75 | Reading a file's text: `Text.FileLines` gives its lines and `Config.Read` the record of each; `Serializer.ReadSerialize` states what reading back written text gives |
| Config.ReadAppend | synology-freshclam-fixer.py:73-74 | Reading two runs of lines one after the other is reading each and appending |
| Config.MatchIndexes | synology-freshclam-fixer.py:123-126 | The matched indexes; `Config.MatchIndexesSound`, `Config.MatchIndexesComplete` and `Config.MatchIndexesAscending` state that they are exactly the matches, ascending |
| Config.MatchIndexesSound | synology-freshclam-fixer.py:123-126 | Every collected index points at a directive called `name` |
| Config.MatchIndexesComplete | synology-freshclam-fixer.py:123-126 | Every directive called `name` has its index collected |
| Config.MatchIndexesAscending | synology-freshclam-fixer.py:123-126 | The collected indexes are strictly ascending, so they are in document order |
| Config.CountZero | synology-freshclam-fixer.py:134 | No index is collected exactly when no directive is called `name` |
| Config.GetConfigValues | synology-freshclam-fixer.py:112-117 | `get_config_values`; `Config.GetConfigValuesAtMatches` states that value `k` is the value of the `k`-th match |
| Config.GetConfigValuesAtMatches | synology-freshclam-fixer.py:112-117 | The query returns one value per matching directive: value `k` is the value of the `k`-th match, in document order |
| Config.GetConfigValuesAppend | synology-freshclam-fixer.py:112-117 | The query on two appended documents is the two queries appended |
| Config.GetConfigValuesNone | synology-freshclam-fixer.py:112-117 | A document without a directive called `name` yields no values |
| Config.RemoveMatches | synology-freshclam-fixer.py:128-129 | The deletions; `Config.RemoveMatchesKeeps`, `Config.RemoveMatchesNoMatch` and `Config.RemoveMatchesAppend` state that exactly the matches go and the rest keep their order |
| Config.RemoveMatchesNoMatch | synology-freshclam-fixer.py:128-129 | After the deletions no directive is called `name` |
| Config.RemoveMatchesLength | synology-freshclam-fixer.py:128-129 | The deletions shorten the document by the number of matches |
| Config.RemoveMatchesKeeps | synology-freshclam-fixer.py:128-129 | A record survives the deletions if and only if it does not match |
| Config.RemoveMatchesAppend | synology-freshclam-fixer.py:128-129 | Deleting from two appended documents is deleting from each |
| Config.RemoveMatchesNone | synology-freshclam-fixer.py:128-129 | Deleting from a document without matches changes nothing |
| Config.RemoveMatchesKeepsOthers | synology-freshclam-fixer.py:128-129 | The deletions keep every other name's values |
| Config.FirstMatch | synology-freshclam-fixer.py:134 | The insertion point: no record before it matches, and it is a match or the end of the document |
| Config.FirstMatchIsSmallestIndex | synology-freshclam-fixer.py:134 | The insertion point is the end of the document when nothing matches, and the smallest match index otherwise |
| Config.ValueList | synology-freshclam-fixer.py:119-132 | The values are empty exactly when the argument is falsy (`None`, `''`, `[]`). A non-empty string becomes a one-element list; a list is kept as it is |
| Config.NewItems | synology-freshclam-fixer.py:135-136 | The inserted block has one comment-free directive `name` per value, in the order supplied |
| Config.NewItemsValues | synology-freshclam-fixer.py:135-136 | Querying the block gives exactly the supplied values under `name`, and nothing under any other name |
| Config.ReplaceConfigValues | synology-freshclam-fixer.py:119-121 | A falsy argument leaves the document unchanged |
| Config.SplitAtFirstMatch | synology-freshclam-fixer.py:128-134 | Deleting the matches keeps the part before the insertion point untouched |
| Config.ReplaceSetsValues | synology-freshclam-fixer.py:119-136 | After a replacement with non-falsy values, querying `name` gives exactly the supplied values, in order |
| Config.ReplaceKeepsOthers | synology-freshclam-fixer.py:119-136 | A replacement leaves the values of every other name unchanged |
| Config.GetConfigValuesOfThree | synology-freshclam-fixer.py:112-117 | The query on three glued pieces is the three queries glued |
| Config.ReplaceLength | synology-freshclam-fixer.py:128-136 | The length changes by the number of supplied values minus the number of matches |
| Config.ReplaceBlock | synology-freshclam-fixer.py:134-136 | The new directives sit together, uncommented and in order, at the insertion point |
| Config.ReplaceFrame | synology-freshclam-fixer.py:128-136 | Outside the new block, the result is the old document with every match deleted, in its old order |
| Config.MatchIndexesSnoc | synology-freshclam-fixer.py:124-126 | Scanning one more record adds its index exactly when it matches |
| Config.LastMatch | synology-freshclam-fixer.py:128-129 | The largest match index, deleted first, has no match after it; the other indexes are the matches before it |
| Config.DeleteStep | synology-freshclam-fixer.py:128-129 | Deleting the largest index not yet deleted moves the boundary of the deleted region down to it |
| Config.RemoveMatchesDropMatch | synology-freshclam-fixer.py:128-129 | A deleted match followed by match-free records leaves only those records |
| Config.NewItemsCons | synology-freshclam-fixer.py:135-136 | Inserting the values back to front at one index builds the block in order |
| Config.CollectMatchIndexes | synology-freshclam-fixer.py:123-126 | The first loop builds the match indexes in descending order |
| Config.DeleteAtIndexes | synology-freshclam-fixer.py:128-129 | Deleting at those indexes, largest first, deletes exactly the matches |
| Config.InsertValues | synology-freshclam-fixer.py:135-136 | Inserting the reversed values one at a time at one index puts the block there, in order |
| Config.ReplaceConfigValuesInPlace | synology-freshclam-fixer.py:119-136 | The source's in-place algorithm computes the functional replacement |
| Custom.ParseCustomValue | synology-freshclam-fixer.py:144-146 | Parsing one entry; `Custom.ParseCustomValueSpec` states when it fails and `Custom.ParseCustomValueOf` which name and value it yields |
| Custom.ParseCustomValueSpec | synology-freshclam-fixer.py:144-146 | An entry is invalid exactly when its stripped text has no whitespace, and the error names the entry. A valid entry gives a non-empty, whitespace-free name and a non-empty, trimmed value |
| Custom.ParseCustomValueOf | synology-freshclam-fixer.py:144-147 | `name<ws>value`, with any whitespace around it, parses as that name and value |
| Custom.FirstFailure | synology-freshclam-fixer.py:143-146 | Every entry before the first invalid one is valid, and the entry at that index is invalid |
| Custom.CollectSpec | synology-freshclam-fixer.py:143-147 | The loop stopping at the first error fails exactly when some entry fails, and then with the first failure. Otherwise it keeps every value, in order |
| Custom.ParseCustomValues | synology-freshclam-fixer.py:143-147 | The parsing loop; `Custom.ParseCustomValuesSpec` states that it fails at the first invalid entry and otherwise yields every pair in order |
| Custom.ParseCustomValuesSpec | synology-freshclam-fixer.py:143-147 | Parsing all entries fails exactly when one is invalid, and then with the first invalid one. Otherwise it gives the entries' names and values in order |
| Custom.FailureSticks | synology-freshclam-fixer.py:143-146 | Once an entry raises, the whole loop raises that error |
| Custom.Group | synology-freshclam-fixer.py:142-147 | The grouping has distinct names; its names are exactly its keys; every name has at least one value |
| Custom.GroupSnoc | synology-freshclam-fixer.py:147 | Each entry updates the grouping with one `setdefault(...).append(...)` |
| Custom.GroupValues | synology-freshclam-fixer.py:142-147 | A name is in the grouping exactly when some entry has it, and its values are that name's values in the order given |
| Custom.FirstNamed | synology-freshclam-fixer.py:142-147 | The index of the first entry with a given name |
| Custom.GroupKeys | synology-freshclam-fixer.py:142-147 | The grouping's names are exactly the entries' names |
| Custom.GroupFirstSeenOrder | synology-freshclam-fixer.py:142-150 | The grouping lists the names in the order each was first seen |
| Custom.ApplyKeys | synology-freshclam-fixer.py:149-150 | One replacement per grouped name, in order; `Custom.ApplyKeysValues` states the resulting values of every name |
| Custom.ApplyKeysValues | synology-freshclam-fixer.py:149-150 | Replacing distinct names one after another gives each its own values and leaves every other name unchanged |
| Custom.ReplaceCustomValues | synology-freshclam-fixer.py:138-140 | An absent or empty list changes nothing |
| Custom.ReplaceCustomValuesFails | synology-freshclam-fixer.py:143-146 | A non-empty list fails if and only if some entry has no whitespace after stripping, and the error names the first such entry |
| Custom.ReplaceCustomValuesSetsValues | synology-freshclam-fixer.py:138-150 | When every entry is valid, each given name holds exactly its values, in the order given, and every other name keeps its values |
| Custom.GroupEntries | synology-freshclam-fixer.py:142-147 | The first loop returns the first invalid entry's error, or else the grouping of all entries |
| Custom.ApplyGrouping | synology-freshclam-fixer.py:149-150 | The second loop makes one in-place replacement per name, in the grouping's order |
| Custom.ReplaceCustomValuesInPlace | synology-freshclam-fixer.py:138-150 | On an error the document is returned untouched; otherwise the in-place version computes the functional result |
| Serializer.RenderLines | synology-freshclam-fixer.py:83-92 | There is one rendered line per record, in order |
| Serializer.OutputLines | synology-freshclam-fixer.py:82-94 | An empty document is an error. Otherwise the lines start with the rendered records and end with a blank line; exactly one blank line is added when the last rendered line is non-empty, and nothing otherwise |
| Serializer.Serialize | synology-freshclam-fixer.py:81-95 | Serializing fails exactly for an empty document |
| Serializer.SerializeText | synology-freshclam-fixer.py:93-95 | The text is every rendered line followed by a newline, except that a final blank record adds nothing. So the text is empty or ends with a newline |
| Serializer.ParseLineNewline | synology-freshclam-fixer.py:98 | The newline that iteration keeps at the end of a line does not change its parse |
| Serializer.ReadRendered | synology-freshclam-fixer.py:69-95 | Reading newline-terminated renderings of canonical records gives the records back |
| Serializer.ReadSerialize | synology-freshclam-fixer.py:69-95 | Reading back the text written for canonical, newline-free records gives the document again, minus a final blank record |
| Serializer.ExampleTrailingBlankAdded | synology-freshclam-fixer.py:93-95 | Example: the one-record document `Foo bar` is written as `Foo bar` and one newline |
| Serializer.ExampleTrailingBlankKept | synology-freshclam-fixer.py:93-95 | Example: the document `Foo bar` followed by a blank record is written as `Foo bar` and one newline, with no second blank line |
| Fixer.ReplaceOptions | synology-freshclam-fixer.py:12-14 | The three fixed replacements; `Fixer.ReplaceOptionsValues` states the resulting values of every name |
| Fixer.Fix | synology-freshclam-fixer.py:12-15 | All four replacements; `Fixer.FixValues` states the resulting values of every name |
| Fixer.Run | synology-freshclam-fixer.py:8-17 | From the text read to the text written; `Fixer.RunWithoutOptions` and `Fixer.RunInvalidCustomValue` state its outcome without options and with an invalid custom value |
| Fixer.ReplaceOptionsValues | synology-freshclam-fixer.py:12-14 | After the three fixed replacements, each fixed name given a non-empty option holds exactly the option's values, and every other name keeps its values |
| Fixer.FixValues | synology-freshclam-fixer.py:12-15 | A name given custom values ends with exactly those, even one of the three fixed names, because the custom values come last and win. Any other name keeps what the fixed replacements left |
| Fixer.RunWithoutOptions | synology-freshclam-fixer.py:8-17 | With no options set, the text written is the document read, serialized again. The run fails only for an empty file |
| Fixer.RunInvalidCustomValue | synology-freshclam-fixer.py:15-17 | An invalid custom value stops the run with the custom-value error, before anything is written |

## Left out

- The command line (`get_args`, argparse) is left out. Its result is the `Fixer.Options` value.
- Opening, reading and writing files (`read`'s `open`, `write`) are left out. The model
  works on the file's text, and `Text.FileLines` splits it as `for line in fp` does.
- `--result` versus `--config` (where the output goes) is left out, because it is I/O.
- The order of writing is left out: `write` opens the destination with `'w'` before
  `serialize` raises on an empty document, so an existing destination file is
  truncated even though `Fixer.Run` reports the error and writes nothing.
- Universal-newline translation (`\r\n` and `\r` read as `\n`) is not modelled. Lines
  are split at `\n` only.
- The `RuntimeError` for an unknown record type cannot happen here. The datatype has
  exactly the two record kinds.
- Non-string values are left out. `replace_config_values` only receives a string, a
  list of strings, or `None`, and that is the `Config.Values` datatype.
- Serializer.ReadSerialize: the read-back is proved only for canonical records without
  newlines. Parsed records with an empty comment (`Foo #`) are not canonical, and
  `Line.RoundTrip` shows they do not come back.
