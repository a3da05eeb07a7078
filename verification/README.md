# Device-tree helpers of BredOS, modelled in Dafny

`bredos/dt.py` is the device-tree toolbox of the BredOS configuration tools.
It reads and writes the boot-loader settings files: `/etc/default/u-boot`,
`/etc/default/grub` and `extlinux.conf`. It also turns compiled device-tree
blobs into a small YAML-like tree through `dtc`, and caches the name,
description and compatible strings of every blob under the blob directory.
Finally it works out which base blob the running board booted with and which
lines overlays added to it, and finds the EFI partition in the output of `df`.

This project models the text-processing and selection logic of that file.
It proves what that logic guarantees:

- the scalar reader and the indentation-stack parser for `dtc -O yaml` output,
  together with the `_flatten` normaliser;
- the `extlinux.conf` parser and serializer, and their round trip;
- `force_quote` and the u-boot/grub `KEY=value` writer and reader, and what a
  written value reads back as;
- the line-set diff and the exact-or-closest selection of `detect_live` and
  `identify_base_dtb`;
- the metadata cache of `extract_dtb_info` and `gencache`, as a class over an
  ordered dictionary;
- the choice of EFI directory from `df` output.

Inputs that come from outside the program are parameters of the model:

- the text of a settings file, or its absence;
- the output of `dtc`, as a function from path to parsed tree;
- the live device-tree source, or its absence;
- the hash function;
- the listing of blob files, or its absence;
- the output of `df`, or its absence.

Python dictionaries keep insertion order, so every dictionary is a sequence of
key/value pairs (module `Assoc`). Assigning to a present key keeps its
position; assigning to a new key appends it. Python's `str` methods that the
code relies on are spelled out in `Text`, and `int(s, 0)` and `str(n)` in
`Numerals`: `strip`, `split()` and `split(None, 1)` with Python's full
whitespace set, `splitlines` with its full set of line boundaries, and
`lower`/`upper` over ASCII letters.
The code requires Python 3.11 or later (`setup.py`), where a decimal
conversion between `int` and `str` of more than 4300 digits raises
`ValueError`; `Numerals.MaxStrDigits` is that default limit. `int(s, 0)` of
such a text fails, so `_parse_scalar` keeps it as text. The bare `except` of
the u-boot and grub readers keeps such a word as text too, and `force_quote`
of such a number raises.
`shlex.split(s, posix=True)` is written out as the POSIX lexer state machine,
with comments off and splitting on whitespace only (`BootEnv.Lex`).

A u-boot or grub value read as a list (`KEY=a b`) is not written back as a
list: the writer joins its words with spaces and quotes them as one string,
which reads back as that one string (`BootEnv.ListReadsAsOneString`).

## Model

| member | source | states |
|---|---|---|
| Tree.FlattenIsFlat | bredos/dt.py:454-466 | whatever `_flatten` returns holds no single-element list whose only element is a list, at any depth |
| Tree.FlattenFlat | bredos/dt.py:454-466 | a value already free of such nested lists is returned unchanged |
| Tree.FlattenIdempotent | bredos/dt.py:454-466 | flattening twice equals flattening once |
| Tree.FlattenExamples | bredos/dt.py:462-464 | `[[x, y]]` becomes `[x, y]` and `[[[x]]]` becomes `[x]` |
| Tree.Flatten | bredos/dt.py:454-466 | a dict keeps exactly its keys; a list keeps its length unless it has one element that flattens to a list, in which case it is that list; scalars are untouched |
| Scalar.NoBracketsQuoted | bredos/dt.py:445-451 | a key wrapped in double or in single quotes comes back without them, and a key that does not start with a quote is kept |
| Scalar.NoBrackets | bredos/dt.py:445-451 | the result is never longer than the key |
| Scalar.QuotedScalar | bredos/dt.py:537-538 | a double-quoted text is read as the text between the quotes, whatever it looks like |
| Scalar.BoolScalar | bredos/dt.py:540-542 | the result is a boolean exactly when the stripped, unquoted text is `true` or `false` in any letter case, and it is true exactly for `true` |
| Scalar.FlowListScalar | bredos/dt.py:545-562 | a stripped text starting with `[` is read as a flow list |
| Scalar.ParseFlowList | bredos/dt.py:545-562 | a flow list always gives a list |
| Scalar.FlowListOfWords | bredos/dt.py:545-562 | `[w1, w2, ...]` with unquoted words is the list of the words, each parsed as a scalar in turn |
| Scalar.FlowListWords | bredos/dt.py:545-562 | the list reader turns the text between the brackets into the list of its parsed words |
| Scalar.JoinedWordsTrimmed | bredos/dt.py:551 | words joined with `, ` give the list reader's strip nothing to remove |
| Scalar.FlowInnerOfWords | bredos/dt.py:546-551 | removing the brackets, stripping and dropping trailing `,` and `;` leave words joined with `, ` intact when the last word does not end in `;` |
| Scalar.EmptyListScalar | bredos/dt.py:551-554 | `[]` and `[,]` give the empty list |
| Scalar.EmptyFlowInner | bredos/dt.py:546-551 | after removing the brackets, stripping and dropping trailing commas, nothing is left of `[]` and `[,]` |
| Scalar.FlowTokens | bredos/dt.py:558-561 | no token the tokenizer yields is longer than the text it scans |
| Scalar.QuotedFlowToken | bredos/dt.py:558-560 | a double-quoted token is the text between its quotes, commas and spaces included, and scanning goes on after the closing quote |
| Scalar.BareFlowToken | bredos/dt.py:558-560 | an unquoted token runs up to the first comma, whitespace or `]` |
| Scalar.SeparatorSkipped | bredos/dt.py:558 | the separator `, ` yields no token |
| Scalar.FlowTokensJoin | bredos/dt.py:558-561 | unquoted words joined with `, ` are found again, one token per word, in order |
| Scalar.ParseNumber | bredos/dt.py:564-570 | the result is a float exactly when the text contains a point and is a float literal; otherwise it is an integer or the text itself |
| Scalar.NumericScalar | bredos/dt.py:564-570 | a plain text without a point is the integer `int(val, 0)` reads, or the text itself when that raises |
| Scalar.IntScalar | bredos/dt.py:564-570 | the decimal text of an integer reads back as that integer when it has at most 4300 digits, and otherwise stays text because `int` refuses it |
| Scalar.HexScalar | bredos/dt.py:564-570 | `0x10` reads as 16 |
| Scalar.TextScalar | bredos/dt.py:564-570 | text that is no quoted string, boolean, list or number is returned unchanged |
| Numerals.ParseIntLiteral | bredos/dt.py:568 | `int(s, 0)` raises on the empty text |
| Numerals.ParseUnsigned | bredos/dt.py:568 | an accepted decimal literal has single underscores between its digits, is zero when it starts with `0`, and has at most 4300 digits |
| Numerals.LongDecimalRejected | bredos/dt.py:568 | a run of more than 4300 decimal digits is refused by `int(s, 0)` |
| Numerals.IntStr | bredos/dt.py:27 | `str(n)` succeeds exactly when the decimal digits of `n` number at most 4300, and then gives the decimal text |
| Numerals.DigitsValueOfText | bredos/dt.py:49-55 | the decimal text of a natural number is all digits with that value, and `int` reads it exactly when `str` could print it |
| Numerals.PrefixedLiteral | bredos/dt.py:568 | after `0x`, `0o` or `0b` in either case and one optional underscore, digits of that base with single underscores between them read as their value, with or without a minus sign; any other text after the prefix raises |
| Numerals.PrefixedRoundTrip | bredos/dt.py:568 | the hexadecimal, octal or binary digits of any natural number, after their prefix, read back as that number |
| Numerals.IntTextRoundTrip | bredos/dt.py:568 | `int(str(n), 0) == n` for every integer `str` can print, negative ones included; the decimal text of any other integer is refused by `int` |
| Numerals.HexLiteralExample | bredos/dt.py:568 | a hexadecimal cell value is accepted by `int(s, 0)` |
| Numerals.BinaryLiteralExample | bredos/dt.py:568 | a signed binary literal with an underscore between digits is accepted |
| Numerals.LeadingZeroExample | bredos/dt.py:568 | a decimal literal with a leading zero is rejected, one made of zeros only is accepted |
| Numerals.FloatLiteralExample | bredos/dt.py:566-567 | a number with a fractional part is a float literal |
| Numerals.NotFloatLiteralExample | bredos/dt.py:566-567 | a version-like text with two points is not, so it falls back to text |
| DtcYaml.Content | bredos/dt.py:476-477 | the content of a line is never longer than the line |
| DtcYaml.PopTo | bredos/dt.py:484-487 | the dedent loop keeps the three stacks the same length, at least one, and the root's indentation 0; afterwards the innermost indentation is at most the line's and the stack is no deeper |
| DtcYaml.Pop | bredos/dt.py:485-487 | one pop shortens all three stacks by one and keeps the rest of each |
| DtcYaml.PopToKeepsRoot | bredos/dt.py:484-487 | popping loses nothing: the root, with every open mapping stored under its key, is the same before and after |
| DtcYaml.PopToClosesDeeper | bredos/dt.py:484-487 | every mapping the dedent loop closes was opened at a deeper indentation than the line |
| DtcYaml.PopToPrefix | bredos/dt.py:484-487 | the mappings left open are the bottom of the old stack, with their indentations |
| DtcYaml.Dedent | bredos/dt.py:484-487 | the imperative pop loop ends in the state `PopTo` describes |
| DtcYaml.SplitColon | bredos/dt.py:497 | `split(":", 1)`: the two parts around the first colon put back together give the text |
| DtcYaml.SetDefaultAppend | bredos/dt.py:500 | `setdefault(key, []).append(v)` raises exactly when the key holds a non-list; otherwise the list under the key gains `v` at its end |
| DtcYaml.AppendItem | bredos/dt.py:503-510 | a plain list item is appended under the last key, a non-list value there first becoming a one-element list; every other key keeps its value |
| DtcYaml.ListLine | bredos/dt.py:491-511 | a `- ` line keeps the stack invariant and its depth |
| DtcYaml.Push | bredos/dt.py:518-524 | `key:` stores an empty mapping under the key, keeps the parent's other keys and their values, pushes the new mapping with the line's indentation and no last key, and leaves the mappings and last keys below untouched |
| DtcYaml.StoreScalar | bredos/dt.py:525-528 | `key: value` stores the parsed value in the innermost mapping, keeps that mapping's other keys and their values, records the key as written as its last key, and leaves the mappings and last keys below untouched |
| DtcYaml.KeyLine | bredos/dt.py:513-528 | a key line keeps the stack invariant and never changes the mappings below the innermost one |
| DtcYaml.Handle | bredos/dt.py:489-528 | a handled line keeps the stack invariant |
| DtcYaml.Step | bredos/dt.py:475-528 | blank lines, `---`, `...` and comments leave the parser unchanged; every line keeps the stack invariant, and keeps the indentations non-decreasing up the stack when they were |
| DtcYaml.HandleOrdered | bredos/dt.py:484-528 | after the dedent a pushed mapping is at the line's indentation, no less than the innermost one left open, so the indentations stay non-decreasing |
| DtcYaml.ReadLine | bredos/dt.py:475-528 | the body of the imperative line loop does what `Step` describes |
| DtcYaml.HandleSameIndent | bredos/dt.py:484-528 | after the dedent, a key line at the innermost mapping's own indentation is handled with that mapping still open, and the mappings below it are untouched |
| DtcYaml.SameIndentKeyNests | bredos/dt.py:484 | a key line at the same column as the key that opened the innermost mapping does not close it (the test is a strict `<`); it lands inside that mapping |
| DtcYaml.Run | bredos/dt.py:475-528 | after any lines the stack invariant holds |
| DtcYaml.RunFailed | bredos/dt.py:475-528 | once a line has raised, later lines change nothing |
| DtcYaml.RunOrdered | bredos/dt.py:475-528 | whatever lines are read, the indentations of the open mappings never decrease up the stack |
| DtcYaml.RunSnoc | bredos/dt.py:475-528 | reading one more line is one more step |
| DtcYaml.ParseDtcYaml | bredos/dt.py:469-530 | the imperative parser returns the flattened root mapping, which is a dictionary with no nested single-element lists of lists |
| Extlinux.LabelNameNonEmpty | bredos/dt.py:145-148 | a label opened from a stripped `label` line always has a non-empty name, so `if current_label:` holds once a label is open |
| Extlinux.ParseValue | bredos/dt.py:156-157 | `fdtoverlays` becomes its list of words, any other key keeps its text |
| Extlinux.Directive | bredos/dt.py:150-168 | the key is lower-case, and a one-word line has no value |
| Extlinux.Store | bredos/dt.py:159-168 | a directive goes to the open label, or to `global` when none is open |
| Extlinux.Step | bredos/dt.py:140-168 | every line keeps the open label among the labels |
| Extlinux.Run | bredos/dt.py:140-168 | after any lines the open label is among the labels |
| Extlinux.ReadLine | bredos/dt.py:140-168 | the body of the imperative loop does what `Step` describes |
| Extlinux.ParseExtlinuxConf | bredos/dt.py:130-170 | the imperative parser reads the lines of the source in turn, starting from empty `global` and `labels` |
| Extlinux.StepDirective | bredos/dt.py:150-168 | a line that is neither skipped nor a `label` line stores the directive it spells |
| Extlinux.StepLabel | bredos/dt.py:145-148 | a `label` line opens the label it names with no directives, keeps `global` and every other label |
| Extlinux.StoreIntoLabel | bredos/dt.py:159-160 | with a label open, the directive is set in that label; `global`, the label names and the label's other keys are untouched |
| Extlinux.StoreIntoGlobal | bredos/dt.py:161-162 | with no label open, the directive is set in `global`; `labels` and the other global keys are untouched |
| Extlinux.GlobalUntilLabel | bredos/dt.py:140-168 | until a `label` line comes, nothing is added to `labels` and no label is open |
| Extlinux.InsideLabel | bredos/dt.py:140-168 | while a label is open and no other `label` line comes, `global` and the set of label names stay as they are |
| Extlinux.ParsedKeys | bredos/dt.py:150-168 | every key the parser returns is a lower-case word, and lists appear exactly under `fdtoverlays` when it has a value |
| Extlinux.GlobalPart | bredos/dt.py:176-180 | the global directives are written one line each, upper-cased, with their value when they have one |
| Extlinux.AppendLabel | bredos/dt.py:186-195 | a label is written as `LABEL name`, one indented line per directive and an empty line |
| Extlinux.AppendLabels | bredos/dt.py:185-195 | the labels are written in order, each as its block |
| Extlinux.SerializeExtlinuxConf | bredos/dt.py:173-197 | the imperative serializer joins the written lines with newlines and strips trailing whitespace |
| Extlinux.NotLabelLine | bredos/dt.py:180 | a written directive line never reads back as a `label` line |
| Extlinux.DirectiveBack | bredos/dt.py:178-194 | a written directive is a kept, trimmed, single line that reads back as that directive |
| Extlinux.SerializedLines | bredos/dt.py:197 | `splitlines()` of the serialized text gives back the written lines up to the last non-empty one |
| Extlinux.RunSerialized | bredos/dt.py:173-197 | reading the written lines of a well-formed configuration rebuilds it |
| Extlinux.RoundTrip | bredos/dt.py:130-197 | `parse_extlinux_conf(serialize_extlinux_conf(c)) == c` for every configuration whose keys are lower-case words other than `label`, whose label names and texts are trimmed single lines, and whose lists are non-empty lists of words under a label's `fdtoverlays` |
| Extlinux.GlobalListBreaks | bredos/dt.py:156-180 | a global `FDTOVERLAYS w` is read as the list `[w]`, written back as `FDTOVERLAYS ['w']`, and read again as the different list `["['w']"]` |
| BootEnv.Escape | bredos/dt.py:28 | the escaped text is never shorter than the text |
| BootEnv.EscapeAppend | bredos/dt.py:28 | the replacement works character by character: escaping a concatenation concatenates the escapes |
| BootEnv.EscapeChars | bredos/dt.py:28 | a single quote becomes `'"'"'`, and text without single quotes is kept as it is |
| BootEnv.ForceQuote | bredos/dt.py:25-28 | an integer is written as its decimal text, and raises when that has more than 4300 digits; a text is written between single quotes |
| BootEnv.QuoteLexes | bredos/dt.py:25-28 | `shlex.split(force_quote(s))` is exactly `[s]`, whatever quotes `s` holds |
| BootEnv.IntTextLexes | bredos/dt.py:25-27 | the decimal text of an integer lexes as that one word |
| BootEnv.Lex | bredos/dt.py:43 | the lexer only ever appends words to those already read |
| BootEnv.ReadValue | bredos/dt.py:43-60 | an unlexable value is kept stripped; one word becomes a scalar, a number when it is all digits and `int` accepts it; several words become a list of the same length whose items are read the same way |
| BootEnv.Scalar | bredos/dt.py:52-57 | a single word is a number exactly when it is all digits and has at most 4300 of them, the value of those digits; otherwise it stays text |
| BootEnv.ItemOf | bredos/dt.py:46-51 | a list item is a number exactly when it is all digits and has at most 4300 of them; otherwise it stays text |
| BootEnv.Quoted | bredos/dt.py:70-77 | a value cannot be written exactly when it is a list holding a number, where `" ".join` raises, or a number of more than 4300 digits, where `str` raises |
| BootEnv.EncodeLines | bredos/dt.py:70-78 | one `KEY=value` line per setting, in order |
| BootEnv.EncodeNone | bredos/dt.py:70-78 | once one setting cannot be written, the whole file cannot |
| BootEnv.EncodeSettings | bredos/dt.py:67-79 | the imperative writer gives the header followed by one line per setting, joined with newlines |
| BootEnv.EncodeUboot | bredos/dt.py:66-79 | `encode_uboot` is that writer with the u-boot header |
| BootEnv.EncodeGrub | bredos/dt.py:114-127 | `encode_grub` is that writer with the grub header |
| BootEnv.ReadSettings | bredos/dt.py:35-60 | the imperative reader assigns the settings of the file's lines in turn, starting from the given dictionary |
| BootEnv.ParseUboot | bredos/dt.py:31-63 | a missing or unreadable file gives the two defaults; otherwise the defaults are overridden by the file's settings |
| BootEnv.ParseGrub | bredos/dt.py:82-111 | the grub settings start from an empty dictionary |
| BootEnv.ReadQuoted | bredos/dt.py:25-60 | every writable value reads back as `ReadBack` of it: texts and natural numbers as themselves, except that all-digit texts become numbers |
| BootEnv.NegativeReadsAsText | bredos/dt.py:25-57 | a printable negative number is written unquoted and reads back as text, because `isdigit()` rejects the sign |
| BootEnv.ListReadsAsOneString | bredos/dt.py:70-77 | a list of several words is written as one quoted string and reads back as that one string |
| BootEnv.LineSets | bredos/dt.py:36-58 | a trimmed `key=text` line sets the key to the value read from the text |
| BootEnv.KeyLineCounts | bredos/dt.py:37-39 | a written setting line is neither blank nor a comment, and it has an `=` |
| BootEnv.HeaderSkipped | bredos/dt.py:35-37 | the comment header the writer puts in front of the settings is skipped by the reader |
| BootEnv.EncodedFileReadsBack | bredos/dt.py:66-111 | the written file, read line by line, assigns each setting what its value reads back as; the header is skipped |
| BootEnv.GrubRoundTrip | bredos/dt.py:82-127 | `parse_grub` of what `encode_grub` writes gives every setting, in order, with the value it reads back as |
| BootEnv.UbootRoundTrip | bredos/dt.py:31-79 | `parse_uboot` of what `encode_uboot` writes gives the defaults overridden by every setting, with the value it reads back as |
| BootEnv.ReadLinesKeepsKeys | bredos/dt.py:35-60 | reading lines never removes a key, so the u-boot defaults are always present |
| Match.LineSet | bredos/dt.py:383-384 | a line is in the set exactly when it is one of the text's lines |
| Match.DiffDts | bredos/dt.py:382-385 | the diff holds lines of `live` only, none of `base`, and every line of `live` missing from `base` |
| Match.DiffEmpty | bredos/dt.py:382-385 | the diff is empty exactly when every line of `live` occurs in `base` |
| Match.DiffSelf | bredos/dt.py:382-385 | a text has no diff against itself |
| Match.DiffSize | bredos/dt.py:382-385 | the diff has no more elements than `live` has lines |
| Match.Consider | bredos/dt.py:270-281 | once an exact match is found it stays; a candidate whose hash matches becomes the exact match; otherwise the scan remains a search for the closest |
| Match.DetectLiveIn | bredos/dt.py:249-287 | without the live tree the result is "Could not read live FDT"; with it but with no blob directory, `None.rglob` raises; otherwise the result is the selection over the directory's candidates |
| Match.DetectLiveLoop | bredos/dt.py:249-287 | the imperative `detect_live` returns what `DetectLiveIn` describes, the missing directory included |
| Match.SelectLoop | bredos/dt.py:269-287 | the imperative loop over the candidates returns what the selection function describes |
| Match.DetectLiveExact | bredos/dt.py:274-275 | when the first candidate whose hash matches is at position `i`, that candidate is returned with an empty diff |
| Match.DetectLiveClosest | bredos/dt.py:276-285 | without an exact match, a returned candidate is the first candidate with the smallest diff (strict `<`), returned with its diff against the live text |
| Match.DetectLiveNotFound | bredos/dt.py:283-287 | "No match found" comes exactly when no candidate matches exactly and the first closest candidate, if any, has empty source text |
| Match.DetectLiveNoCandidate | bredos/dt.py:269-287 | with no usable candidate the result is "No match found" |
| Match.ScanClosest | bredos/dt.py:276-281 | without an exact match the scan ends holding the first candidate with the smallest diff, or none when no candidate is usable |
| Match.ExactSticks | bredos/dt.py:274-275 | once an exact match is found, later candidates change nothing |
| Match.FirstMinUnique | bredos/dt.py:278 | there is only one first minimum |
| Match.ExactMatchDiff | bredos/dt.py:274-275 | with an injective hash, an exact match has the live text as its source, so its diff really is empty |
| Match.ExactMatches | bredos/dt.py:298-304 | never more matches than candidates |
| Match.ExactMatchesFirst | bredos/dt.py:298-307 | the matches are empty exactly when no candidate matches, and the first match is the first matching candidate |
| Match.IdentifyBaseIn | bredos/dt.py:290-309 | without the live tree the result is "Failed to read live FDT"; with it but with no blob directory, `None.rglob` raises; otherwise the result is the identification over the directory's candidates |
| Match.IdentifyBaseDtb | bredos/dt.py:290-309 | the imperative loop returns what the identification function describes, the missing directory included |
| Match.IdentifyAgrees | bredos/dt.py:290-309 | identification fails exactly when no candidate matches exactly, and when it succeeds it names the same blob `detect_live` returns when both scan the candidates in the same order, with an empty diff |
| Catalog.LastFind | bredos/dt.py:576 | the position of the last occurrence of the character, or -1 |
| Catalog.FileName | bredos/dt.py:584 | the file name has no `/` and ends the path |
| Catalog.StemOf | bredos/dt.py:584 | the stem of `dir/base.ext` is `base` |
| Catalog.Describe | bredos/dt.py:580-597 | no metadata exactly when the tree is missing or empty; a `model` list with a non-text item raises; otherwise the name is the stem, `compatible` defaults to `[]`, and `model` defaults to `""`, with a list joined by spaces |
| Catalog.ExtractMemo | bredos/dt.py:576-578 | once a path has metadata, asking again gives the same metadata and leaves the cache as it is, whatever the conversion would now give |
| Catalog.ExtractKeeps | bredos/dt.py:576-596 | the cache only grows: every present entry keeps its value and keys stay distinct |
| Catalog.DtCache.ExtractDtbInfo | bredos/dt.py:573-597 | the method answers from the cache or computes and stores the metadata, as `Extract` describes |
| Catalog.AllFiles | bredos/dt.py:216-218 | the base files, then the overlays, each tagged with its kind |
| Catalog.Submitted | bredos/dt.py:221-225 | exactly the listed files whose path is not cached are submitted |
| Catalog.Outcomes | bredos/dt.py:200-205 | a worker's outcome for a path is the metadata computed for it |
| Catalog.SuffixesDiffer | bredos/dt.py:236-239 | a `.dtbo` path never ends in `.dtb`, so the `if`/`elif` never has to choose |
| Catalog.CollectAgrees | bredos/dt.py:227-232 | while results are collected, each part of the catalogue agrees with the cache on the paths with its suffix |
| Catalog.CollectKeeps | bredos/dt.py:227-232 | a cached path that is not submitted keeps its entry |
| Catalog.CollectStores | bredos/dt.py:227-232 | each submitted file that gives metadata is stored in the cache when no result raised |
| Catalog.CollectCovers | bredos/dt.py:227-232 | when no result raised, the collected cache keeps every earlier entry and holds every submitted file that gives metadata |
| Catalog.FailedSticks | bredos/dt.py:241-244 | once a result raises, no later result is collected |
| Catalog.PickExact | bredos/dt.py:235-239 | the second loop puts into a part exactly the cached paths with its suffix, with their cached metadata |
| Catalog.DtCache.CollectResults | bredos/dt.py:227-232 | the imperative loop over the results ends with the cache and catalogue `Collect` describes |
| Catalog.ClassifyCache | bredos/dt.py:235-239 | the imperative second loop gives the catalogue `Classify` describes |
| Catalog.DtCache.GenCache | bredos/dt.py:208-246 | the method leaves the cache and returns the catalogue `GenCacheSpec` describes |
| Catalog.GenCacheKeeps | bredos/dt.py:208-246 | when nothing raises, `gencache` keeps every earlier cache entry, keeps keys distinct, and caches every listed file that gives metadata |
| Catalog.GenCacheSorts | bredos/dt.py:208-246 | when nothing raises, `base` holds exactly the cached `.dtb` entries and `overlays` exactly the cached `.dtbo` entries, with their cached metadata, and no path is in both |
| EfiDir.RowMount | bredos/dt.py:321-326 | a mount point taken from a row starts with `/boot` |
| EfiDir.MountsExactly | bredos/dt.py:319-326 | the collected set holds exactly the mount points some row names |
| EfiDir.MountsUnderBoot | bredos/dt.py:319-326 | every collected mount point is under `/boot` |
| EfiDir.Rows | bredos/dt.py:320 | the rows are the lines after the header |
| EfiDir.DetectEfiDir | bredos/dt.py:313-333 | the imperative loop returns the choice `EfiDirOf` describes |
| EfiDir.EfiDirChoice | bredos/dt.py:313-333 | `/boot/efi` is chosen exactly when a row after the header mounts it; `/boot` exactly when none does and a row mounts `/boot`; nothing otherwise or when `df` failed |
| EfiDir.HeaderOnly | bredos/dt.py:320 | the header line is never read as a mount, so output with only a header gives nothing |

## Left out

- Running `dtc`, reading `/proc/device-tree`, running `df` and reading the settings files are inputs of the model. Their results are parameters, and `None` stands for a failure.
- `hash_str` (SHA-256) is a hash parameter of any type. It is assumed injective only where a lemma says so (`Match.ExactMatchDiff`).
- Listing the blob directory with `rglob` is an input, and its order is taken as given. The module-level search for the blob directory (`bredos/dt.py:18-22`) is not part of this model; its outcome is an input. When no directory was found, `gencache` catches the `AttributeError` of `None.rglob` and returns empty results (the `None` listing of `Catalog.GenCacheSpec`). `detect_live` and `identify_base_dtb` let it escape (`Match.DetectLiveIn`, `Match.IdentifyBaseIn`).
- The process pools of `gencache` and `detect_live` are sequential loops. Results are taken in submission order rather than in `as_completed` order.
- Catalog.Outcomes: each `gencache` worker runs in a separate process whose copy of the cache cannot hold a submitted path, so its metadata is computed afresh. Writes a worker makes to its own copy of the cache are not modelled.
- `KeyboardInterrupt` in `gencache` is caught like any other exception. Only the exception a `model` list with a non-text item raises (`" ".join`) is modelled.
- The float branch of `_parse_scalar` keeps the literal text as a `Float` tag and does not compute its value.
- `lower`, `upper` and `isdigit` are modelled for ASCII only; `isspace` and the line boundaries of `splitlines` are Python's full sets. Decoding bytes to text is not modelled.
- Numerals.ParseIntLiteral: Python's `int(s, 0)` and `float()` also accept non-ASCII decimal digits (such as Arabic-Indic digits); `ParseIntLiteral` and `IsFloatLiteral` accept ASCII digits only and reject those texts.
- Match.IdentifyAgrees: `detect_live` takes the results of its process pool in `as_completed` order, so with two candidates of identical source it may name the other one; the agreement is proved for one shared candidate order.
- Match.DiffDts: `diff_dts` returns a Python list built from a set, whose order is unspecified. The model returns the set itself, so `len` is the set's size and list order is not captured.
- In `detect_live`, `if best_dts:` treats a closest candidate with empty source text as no candidate. The model keeps that test as written.
- Extlinux.Serialize: a list in `global`, and a list under a label key other than `fdtoverlays`, is written as `str` of the Python list. This is modelled without its escaping of quotes and backslashes. Such lists are not in the round trip: a global `fdtoverlays` list, which the parser does produce, reads back as other words (`Extlinux.GlobalListBreaks`).
- Numerals.MaxStrDigits: the digit limit is Python's default. A program that changes it with `sys.set_int_max_str_digits` is not modelled.
- BootEnv.ForceQuote: a Python `bool` is an `int` to `force_quote`, and booleans are not modelled among the settings.
- BootEnv.ParseUboot: a read error part-way through the file, such as a decoding error, makes `parse_uboot` return the settings read so far. The model's missing content stands only for a file that cannot be opened.
- EfiDir.RowMount: a mount point containing spaces is split like `df`'s other columns, as the code does; `df` escaping is not modelled.
- `identify_overlays`, `uefi_overriden`, `safe_exists`, `booted_with_edk`, `dtb_to_dts`, `dtb_to_yaml` and `fdt_hash_from_proc` are I/O around the modelled logic and are not part of this model.
