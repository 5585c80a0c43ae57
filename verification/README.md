# Manalyze in Dafny

A model of the parts of Manalyze, a static analyser for PE executables, where bytes are decoded,
text is translated and reports are put together, with proofs of what those parts promise.

- **UTF-8 and UTF-16** (`Utf8Core`, `Utf8Codec`, `Utf8Order`, `Utf8Checked`, `Utf8Repair`,
  `Utf8Unchecked`): the validating decoder accepts exactly the grammar of section 4 of RFC 3629; the
  conversions are inverse to each other and keep the order of texts; the repair of invalid text is
  pinned down by a unique segmentation of its input; the unchecked functions refine the checked ones.
- **ClamAV to YARA** (`ClamSyntax`, `YaraSyntax`, `ClamTranslate`, `ClamMeaning`, `ClamPrinter`): the
  translator of logical expressions, both grammars down to characters, the proof that the emitted
  text, read back as a YARA condition, means the same, and what is written for every expression.
- **JSON reports** (`ReportTree`, `JsonPrinter`, `JsonReader`, `JsonMachine`, `JsonRoundTrip`,
  `JsonText`): the printer, the json_spirit grammar and unescaper, the stack machine that rebuilds
  values, the round trip through all of them for every report tree, and the reader on any JSON text.
- **Report nodes and results** (`NodeNames`, `OutputTree`, `PluginResult`): renaming of duplicates
  over whole runs, and the joining of threat levels.
- **PE parsers** (`PeFile`, `PeStrings`, `SectionMap`, `PeImage`, `OptionalHeader`, `Imports`,
  `Relocations`, `ResourceTree`, `ResourceTable`, `ResourceRoundTrip`, `RichHeader`): loops over an
  untrusted file through one shared cursor, each proved against a decoding of the bytes.
- **Byte assembly** (`IconFile`, `Authenticode`, `RichChecksum`): icon files built from resources and
  read back, the byte stream of the Authenticode digest, and what the RICH checksum detects.

`Bytes`, `Decimal`, `Options`, `Sequences` and `Xor` hold what these share.

A file is a sequence of bytes with a cursor (`PeFile.File`); 16-, 32- and 64-bit fields are bounded
integers and every wrap-around is written out. Shifts and masks are written as division, remainder
and multiplication. Loops and objects of the original are loops and objects here, each tied by its
`ensures` to a function or predicate about which the properties are proved.

Where a promise does not hold of the code, the code is modelled as it is and the exact condition is
proved:

- `OutputTreeNode::append` can give one name to two nodes; `NodeNames.RenamingCanCollide` shows it and
  `NodeNames.AppendKeepsDistinctExactly` says when it happens.
- Counts such as `0<2` lose files without a match; `ClamMeaning.LessThanTwoIsLost` shows it,
  `ClamMeaning.SingleComparisonExact` says when it happens, and
  `ClamMeaning.TranslationNeverOvermatches` that no file is ever gained.
- The printer's escapes for the bell and the vertical tab are unknown to the reader, which drops
  those characters; `JsonRoundTrip.BellIsLost` shows it and `JsonRoundTrip.JsonRoundTripExact` says
  that nothing else is lost.
- `replace_invalid` throws on a text that ends inside a character, although it exists to mend any
  text; `Utf8Checked.CutOffTextThrows` shows it and `Utf8Checked.ReplaceInvalid` gives the exact
  condition.
- `utf8::next` reports the code point 0 with every invalid code point, because it is not stored on
  failure; `Utf8Checked.WhyNextThrows` shows it.
- A relocation block smaller than its header is read as an enormous one; `Relocations.BlockSizes`
  shows that no file under four gibibytes has room for it.

## Model

| member | source | states |
|---|---|---|
| `Utf8Core.IncreaseSafely` | include/manacommons/utf8/core.h:137-148 | moving past n trails succeeds iff n trails follow within the text, runs out of room iff the text ends among trails |
| `Utf8Core.CharAccepted` | include/manacommons/utf8/core.h:222-272 | the length, code point and overlong tests together accept exactly the UTF8-char production of RFC 3629 |
| `Utf8Core.ValidateNextSound` | include/manacommons/utf8/core.h:222-272 | an accepted sequence is one grammar character and yields its code point |
| `Utf8Core.ValidateNextComplete` | include/manacommons/utf8/core.h:222-272 | every grammar character at the position is accepted, with its own end and code point |
| `Utf8Core.OctetsCancel` | include/manacommons/utf8/core.h:287-303 | after a valid prefix, the rest of a valid text is valid: the grammar is decodable character by character |
| `Utf8Core.StuckMeansLongest` | include/manacommons/utf8/core.h:287-297 | a valid prefix after which no character is accepted is the longest valid prefix |
| `Utf8Core.FindInvalid` | include/manacommons/utf8/core.h:287-297 | the result is the end of the longest prefix made of whole valid characters |
| `Utf8Core.IsValid` | include/manacommons/utf8/core.h:299-303 | true iff the text matches UTF8-octets of section 4 of RFC 3629 |
| `Utf8Codec.EncodeThenAssemble` | include/manacommons/utf8/checked.h:72-95 | the encoding of every valid code point is a grammar character that decodes to it |
| `Utf8Codec.AssembleThenEncode` | include/manacommons/utf8/unchecked.h:37-58 | every grammar character decodes to a valid code point whose encoding is that character |
| `Utf8Codec.PairIsValid` | include/manacommons/utf8/checked.h:206-231 | a surrogate pair makes a valid code point above 0xFFFF that splits into the same pair |
| `Utf8Codec.UnitsArePair` | include/manacommons/utf8/unchecked.h:144-157 | a code point above 0xFFFF splits into a surrogate pair that joins to it |
| `Utf8Codec.Encode8RoundTrip` | include/manacommons/utf8/unchecked.h:159-166 | encoding any valid code points gives valid UTF-8 that decodes to them |
| `Utf8Codec.CodePointsRoundTrip` | include/manacommons/utf8/unchecked.h:168-175 | decoding any valid UTF-8 gives valid code points that encode to it |
| `Utf8Codec.CodePoints16RoundTrip` | include/manacommons/utf8/checked.h:206-231 | units without unpaired surrogates decode to valid code points that encode to the same units |
| `Utf8Codec.Encode16RoundTrip` | include/manacommons/utf8/unchecked.h:144-157 | the units of any valid code points have no unpaired surrogate and decode to them |
| `Utf8Codec.Utf16RoundTrip` | include/manacommons/utf8/unchecked.h:129-157 | UTF-16 without unpaired surrogates survives the way to UTF-8 and back |
| `Utf8Codec.Utf8RoundTrip` | include/manacommons/utf8/unchecked.h:129-157 | valid UTF-8 survives the way to UTF-16 and back |
| `Utf8Order.OrderIsKept` | include/manacommons/utf8/checked.h:72-95 | texts sort by their octets exactly as by their characters, which leaves only one way to number the characters |
| `Utf8Order.AsciiIsItself` | include/manacommons/utf8/checked.h:77-78 | US-ASCII text is the same in code points, octets and units |
| `Utf8Checked.WhyNextThrows` | include/manacommons/utf8/checked.h:136-153 | which exception the checked step throws at any octet, by lead range, trails, room and code point; the reported code point is always 0 |
| `Utf8Checked.Prior` | include/manacommons/utf8/checked.h:162-176 | stepping back from the end of a character finds its start and code point; the exceptions for no room and for trails only |
| `Utf8Checked.Distance` | include/manacommons/utf8/checked.h:196-204 | returns iff the text is valid, and then the number of its characters |
| `Utf8Checked.Utf16To8` | include/manacommons/utf8/checked.h:206-231 | throws iff a surrogate is unpaired, and then reports the first one or what stands in its partner's place; otherwise the result is the valid UTF-8 of the same code points |
| `Utf8Checked.SkipBroken` | include/manacommons/utf8/checked.h:111-123 | after a failure the cursor strictly advances past one broken piece and all its trails |
| `Utf8Checked.ReplaceInvalid` | include/manacommons/utf8/checked.h:98-127 | for any 32-bit mark: throws iff the text ends inside a character (or the mark is invalid and needed); otherwise the result is the segmentation with broken pieces replaced |
| `Utf8Checked.CutOffTextThrows` | include/manacommons/utf8/checked.h:109-110 | the octets E2 82 are cut off inside a character, so they are not mended |
| `Utf8Repair.SegmentationUnique` | include/manacommons/utf8/checked.h:98-127 | a text has only one division into characters and maximal broken pieces |
| `Utf8Repair.RepairKeepsValid` | include/manacommons/utf8/checked.h:98-127 | valid text is unchanged by repair |
| `Utf8Repair.RepairIsValid` | include/manacommons/utf8/checked.h:98-127 | with a valid mark, repaired text is valid |
| `Utf8Repair.ValidIsNotTruncated` | include/manacommons/utf8/checked.h:109-110 | valid text never ends inside a character, so its repair does not throw |
| `Utf8Repair.RepairIdempotent` | include/manacommons/utf8/checked.h:98-127 | a second repair does not throw and changes nothing |
| `Utf8Unchecked.NextRefinesChecked` | include/manacommons/utf8/unchecked.h:60-89 | where a character is, the unchecked step gives the code point and position of the checked one |
| `Utf8Unchecked.StrayIsTaken` | include/manacommons/utf8/unchecked.h:60-89 | an octet that starts nothing is taken as a character of its own |
| `Utf8Unchecked.Utf8To32` | include/manacommons/utf8/unchecked.h:168-175 | on valid text, the code points of the checked decoder |
| `Utf8Unchecked.Utf8To16` | include/manacommons/utf8/unchecked.h:144-157 | on valid text, the UTF-16 form of its code points |
| `Utf8Unchecked.Utf32To8` | include/manacommons/utf8/unchecked.h:159-166 | the text whose code points these are |
| `Utf8Unchecked.Utf16To8` | include/manacommons/utf8/unchecked.h:129-142 | on paired units, the UTF-8 form of their code points |
| `Utf8Unchecked.Prior` | include/manacommons/utf8/unchecked.h:97-103 | stepping back from the end of a character undoes the step over it |
| `ClamTranslate.Translate` | bin/yara_rules/parse_clamav.py:225-281 | the loop with look-ahead yields the recursive translation of the tokens, or its rejection |
| `ClamTranslate.YaraRule.constructor` | bin/yara_rules/parse_clamav.py:99-102 | the loop leaves one condition per sub-signature, in order |
| `ClamTranslate.YaraRule.TranslateOffset` | bin/yara_rules/parse_clamav.py:120-124 | the condition of a sub-signature found anywhere is added last |
| `ClamTranslate.YaraRule.Condition` | bin/yara_rules/parse_clamav.py:215-281 | without conditions there is not enough information; otherwise the translation of the expression |
| `ClamTranslate.ConditionsAreOwnStrings` | bin/yara_rules/parse_clamav.py:120-124 | YARA reads the k-th condition as one string, and no two sub-signatures share a name |
| `ClamTranslate.EmittedTextLexes` | bin/yara_rules/parse_clamav.py:233-280 | the emitted text is read by YARA as the intended tokens, with no two running together |
| `ClamMeaning.YaraParsesOr` | bin/yara_rules/parse_clamav.py:233-280 | the YARA grammar gives the emitted tokens the shape that the ClamAV grammar gave the original |
| `ClamMeaning.EmitOr` | bin/yara_rules/parse_clamav.py:242-255 | an expression is rejected iff it counts a group or asks for distinct signatures |
| `ClamMeaning.ComparisonExact` | bin/yara_rules/parse_clamav.py:252-270 | a comparison keeps its truth value iff it is lossless or its sub-signature matches |
| `ClamMeaning.SameTruth` | bin/yara_rules/parse_clamav.py:233-280 | expressions whose comparisons agree have the truth value of their translation |
| `ClamMeaning.TranslationIsTotal` | bin/yara_rules/parse_clamav.py:225-281 | every well-formed expression is either skipped, iff it is not plain, or becomes a readable condition |
| `ClamMeaning.TruthImpliesSatisfaction` | bin/yara_rules/parse_clamav.py:233-280 | whatever the comparisons, a translated expression is true only where the original is |
| `ClamMeaning.TranslationNeverOvermatches` | bin/yara_rules/parse_clamav.py:225-281 | from text to text, for every plain expression and all match counts, the rule never reports a file that the signature does not |
| `ClamMeaning.TranslationPreservesMeaning` | bin/yara_rules/parse_clamav.py:225-281 | the emitted condition is true of a file iff the expression is, whenever its comparisons agree |
| `ClamMeaning.LosslessTranslationIsExact` | bin/yara_rules/parse_clamav.py:225-281 | without lossy comparisons, truth agrees for every assignment of match counts |
| `ClamMeaning.SingleComparisonExact` | bin/yara_rules/parse_clamav.py:252-270 | from text to text, one comparison is preserved iff it is lossless or its sub-signature matches |
| `ClamMeaning.LessThanTwoIsLost` | bin/yara_rules/parse_clamav.py:259-270 | `0<2` holds without a match, its translation does not |
| `ClamPrinter.ParsePrinted` | bin/yara_rules/parse_clamav.py:225-240 | every expression of the grammar, written with the signs of the language, is read back as itself |
| `ClamPrinter.ParsedExactly` | bin/yara_rules/parse_clamav.py:225-240 | the expressions that can be written are exactly those that some text denotes |
| `ClamPrinter.WrittenIsTranslated` | bin/yara_rules/parse_clamav.py:225-281 | to the letter: a written plain expression becomes its condition text, any other one is skipped |
| `ClamPrinter.WrittenMeansTheSame` | bin/yara_rules/parse_clamav.py:233-280 | the condition text of an expression is true only where the expression is satisfied, and exactly there when its comparisons agree |
| `ClamPrinter.WrittenTranslationIsExact` | bin/yara_rules/parse_clamav.py:225-281 | without lossy comparisons, what is written for an expression is translated to a condition true of exactly the files that satisfy it |
| `JsonReader.SubstituteEscChars` | plugins/plugin_virustotal/json_spirit/json_spirit_reader_template.h:126-160 | the cursor loop computes the recursive unescaping |
| `JsonReader.UnescapeShort` | plugins/plugin_virustotal/json_spirit/json_spirit_reader_template.h:97-106 | each two-character escape stands for its character, the solidus for itself |
| `JsonReader.UnescapeHex` | plugins/plugin_virustotal/json_spirit/json_spirit_reader_template.h:107-114 | `\xHH` stands for the character of that number |
| `JsonReader.UnescapeUnicode` | plugins/plugin_virustotal/json_spirit/json_spirit_reader_template.h:75-86 | `\uHHHH` stands for the character of the number's low byte |
| `JsonReader.UnescapeUnknown` | plugins/plugin_virustotal/json_spirit/json_spirit_reader_template.h:89-124 | an unknown escape, or a hexadecimal one cut short, is dropped |
| `JsonReader.UnescapePlain` | plugins/plugin_virustotal/json_spirit/json_spirit_reader_template.h:126-160 | any other character, and a backslash at the end, stands for itself |
| `JsonReader.SkipBlank` | plugins/plugin_virustotal/json_spirit/json_spirit_reader_template.h:566-569 | each of the six blanks is passed over |
| `JsonReader.SkipLineComment` | plugins/plugin_virustotal/json_spirit/json_spirit_reader_template.h:568-568 | a comment of two slashes reaches to the end of the line, or of the text |
| `JsonReader.SkipBlockComment` | plugins/plugin_virustotal/json_spirit/json_spirit_reader_template.h:569-569 | a bracketed comment reaches to its first end mark |
| `JsonReader.SkipNothing` | plugins/plugin_virustotal/json_spirit/json_spirit_reader_template.h:566-569 | nothing else is passed over |
| `JsonReader.NumbersAreRead` | plugins/plugin_virustotal/json_spirit/json_spirit_reader_template.h:502-506 | a numeral is a signed integer below 2^63, an unsigned one below 2^64, and no value beyond |
| `JsonReader.PointedIsNoInteger` | plugins/plugin_virustotal/json_spirit/json_spirit_reader_template.h:502-506 | a numeral before a point is not read as an integer |
| `JsonReader.KeywordsAreRead` | plugins/plugin_virustotal/json_spirit/json_spirit_reader_template.h:459-461 | true, false and null are read as such |
| `JsonRoundTrip.UnescapeEscape` | include/manacommons/escape.h:83-87 | unescaping an escaped string drops bells and vertical tabs and nothing else |
| `JsonRoundTrip.EscapeRoundTripExact` | include/manacommons/escape.h:83-87 | a string survives escaping and unescaping iff it has no bell or vertical tab |
| `JsonRoundTrip.InsideEscaped` | plugins/plugin_virustotal/json_spirit/json_spirit_reader_template.h:490-500 | the string rule ends an escaped string exactly at its closing quote |
| `JsonMachine.SemanticActions.constructor` | plugins/plugin_virustotal/json_spirit/json_spirit_reader_template.h:210-214 | nothing is built yet |
| `JsonMachine.SemanticActions.Add` | plugins/plugin_virustotal/json_spirit/json_spirit_reader_template.h:333-349 | the value goes to the end of the current array or object, or becomes the root |
| `JsonMachine.SemanticActions.Begin` | plugins/plugin_virustotal/json_spirit/json_spirit_reader_template.h:306-321 | the current value is stacked and a new compound inside it becomes current |
| `JsonMachine.SemanticActions.End` | plugins/plugin_virustotal/json_spirit/json_spirit_reader_template.h:323-331 | the stacked value becomes current again, unless at the root |
| `JsonMachine.SemanticActions.Handle` | plugins/plugin_virustotal/json_spirit/json_spirit_reader_template.h:216-290 | each parser event has its step of the machine |
| `JsonMachine.RunsValue` | plugins/plugin_virustotal/json_spirit/json_spirit_reader_template.h:297-349 | from any state, the events of a value add exactly that value and restore position and stack |
| `JsonMachine.RebuildsObject` | plugins/plugin_virustotal/json_spirit/json_spirit_reader_template.h:297-349 | the events of an object rebuild it from nothing |
| `JsonMachine.HandleAll` | plugins/plugin_virustotal/json_spirit/json_spirit_reader_template.h:216-349 | the actions object, handed any events its assertions allow, ends in the state of the run |
| `JsonMachine.RebuildObject` | plugins/plugin_virustotal/json_spirit/json_spirit_reader_template.h:210-349 | a fresh actions object, handed the events of an object, holds that object |
| `JsonPrinter.RepeatText` | src/output_formatter.cpp:32-39 | n copies of the text |
| `ReportTree.TrimExactly` | src/output_formatter.cpp:319-379 | trimming leaves exactly what stands between the blanks on both sides, which is unique |
| `JsonPrinter.DumpNode` | src/output_formatter.cpp:293-393 | appends to the stream the rendering of the node at its level, with or without its name |
| `JsonPrinter.JsonFormatter.Format` | src/output_formatter.cpp:271-289 | header if not yet printed, all nodes, footer at the end of the stream; the root is empty afterwards |
| `JsonPrinter.FormatAll` | src/output_formatter.cpp:271-289 | a single final call writes one braced report of all nodes |
| `JsonRoundTrip.ReportReads` | plugins/plugin_virustotal/json_spirit/json_spirit_reader_template.h:450-508 | the grammar reads the printed report as the events of the tree, up to the last newline |
| `JsonRoundTrip.JsonRoundTrip` | src/output_formatter.cpp:271-393 | for every tree, reading what was printed gives its names, nesting and trimmed values without bells and vertical tabs |
| `JsonRoundTrip.JsonRoundTripExact` | src/output_formatter.cpp:271-393 | names and trimmed values come back unchanged iff they have no bell or vertical tab |
| `JsonRoundTrip.BellIsLost` | include/manacommons/escape.h:83-84 | a text with a bell between two letters comes back without it |
| `JsonText.WrittenIsRead` | plugins/plugin_virustotal/json_spirit/json_spirit_reader_template.h:449-506 | every value of strings, 64-bit integers, keywords, arrays and objects, written with any blanks before its tokens, is read as itself |
| `JsonText.WrittenObjectIsRebuilt` | plugins/plugin_virustotal/json_spirit/json_spirit_reader_template.h:297-349 | through the grammar and the stack machine, reading is an inverse of writing for every object |
| `JsonText.ColonIsMissed` | plugins/plugin_virustotal/json_spirit/json_spirit_reader_template.h:474-478 | a name without a colon after it throws |
| `JsonText.UnfinishedObjectThrows` | plugins/plugin_virustotal/json_spirit/json_spirit_reader_template.h:464-468 | members followed by neither a comma nor a brace throw |
| `JsonText.UnfinishedArrayThrows` | plugins/plugin_virustotal/json_spirit/json_spirit_reader_template.h:480-484 | elements followed by neither a comma nor a bracket throw |
| `NodeNames.UnusedNameIsKept` | manacommons/output_tree_node.cpp:213-228 | a name that is not taken is kept |
| `NodeNames.AppendKeepsDistinctExactly` | manacommons/output_tree_node.cpp:213-228 | after distinct names, the new one is distinct iff the numbered names already there stand in order |
| `NodeNames.RenamingCanCollide` | manacommons/output_tree_node.cpp:213-228 | an earlier `B (#2)` makes the second `B` collide |
| `NodeNames.RunsKeepNamesDistinct` | manacommons/output_tree_node.cpp:200-230 | over every run with plain names, names stay distinct and namesakes are numbered in order |
| `OutputTree.Node.Append` | manacommons/output_tree_node.cpp:200-230 | the node is added last under its new name; other nodes and non-lists are untouched |
| `OutputTree.Node.FindNode` | manacommons/output_tree_node.cpp:49-75 | the first child of that name; with distinct names, the only one |
| `OutputTree.Node.Clear` | manacommons/output_tree_node.cpp:270-285 | a list becomes empty, any other node stays |
| `OutputTree.AppendRun` | manacommons/output_tree_node.cpp:200-230 | any run of appends: all nodes in order, named by the run, distinct when the initial names are plain |
| `PluginResult.Result.constructor` | manacommons/plugin_framework/result.cpp:22-27 | level NO_OPINION, one level node, one empty output node |
| `PluginResult.Result.GetLevel` | manacommons/plugin_framework/result.cpp:66-78 | the level of the level node |
| `PluginResult.Result.SetLevel` | manacommons/plugin_framework/result.cpp:31-43 | the level node holds the new level |
| `PluginResult.Result.RaiseLevel` | manacommons/plugin_framework/result.cpp:47-62 | the greater of both levels; output unchanged; still one level node and one output node |
| `PluginResult.Result.GetInformation` | manacommons/plugin_framework/result.cpp:123-134 | the output node |
| `PluginResult.Result.SetSummary` | manacommons/plugin_framework/result.cpp:97-106 | one summary node with the text; level and output unchanged |
| `PluginResult.Result.AddNode` | manacommons/plugin_framework/result.cpp:176-180 | the node is appended to the output under its new name |
| `PluginResult.Result.AddInformation` | include/plugin_framework/result.h:69-74 | a fresh text node with a hidden name, called after the number of output nodes, is appended |
| `PluginResult.Result.Merge` | manacommons/plugin_framework/result.cpp:138-152 | the greater level, and exactly the other result's nodes appended in order |
| `PluginResult.RunJoins` | manacommons/plugin_framework/result.cpp:47-62 | over every run the level is the maximum of NO_OPINION and all levels raised or merged, and the output is what was merged, in order |
| `PluginResult.RunLevel` | include/plugin_framework/threat_level.h:22-22 | over every run: malicious if anything was, else suspicious if anything was, else no opinion |
| `PluginResult.JoinIsLater` | include/plugin_framework/threat_level.h:22-22 | of two levels, the later one in the order safe, no opinion, suspicious, malicious |
| `PluginResult.PerformAll` | manacommons/plugin_framework/result.cpp:22-152 | a new result object, put through any run of raising and merging, ends as the run says |
| `PeFile.ReadAsciiString` | manape/utils.cpp:22-41 | the bytes from the cursor to the first zero, the limit or the end of the file, and where the cursor ends |
| `PeStrings.ReadPrefixedUnicodeString` | manape/utils.cpp:79-115 | the UTF-8 form of the counted units, empty if a surrogate is unpaired; always valid UTF-8; where the cursor ends |
| `PeStrings.ReadStringAtOffset` | manape/utils.cpp:119-134 | the string at the offset, success iff it is not empty, and the cursor always comes back |
| `PeStrings.StoredTextIsReadBack` | manape/utils.cpp:79-115 | text stored as counted UTF-16 is read back as its UTF-8 form |
| `SectionMap.FindSection` | manape/section.cpp:123-148 | the first section by virtual size, else the first by raw size |
| `SectionMap.RvaToOffset` | manape/pe.cpp:506-562 | the section find_section picks, and (rva - VA + aligned raw pointer) mod 2^32, despite 64-bit and signed arithmetic |
| `SectionMap.PickIsFound` | manape/section.cpp:111-148 | in plain inequalities: the first section that reaches the address by virtual size, else the first by raw size, else none |
| `SectionMap.TranslationExactly` | manape/pe.cpp:506-562 | the offset is the one and only number that these inequalities and the aligned raw pointer give, 0 without a section |
| `SectionMap.CoveringSectionTranslates` | manape/pe.cpp:506-562 | with disjoint ranges, the one section that covers an address translates it |
| `SectionMap.OrderDoesNotMatter` | manape/pe.cpp:506-562 | with disjoint ranges, the order of sections is irrelevant for covered addresses |
| `SectionMap.InjectiveExactly` | manape/pe.cpp:506-562 | translation is injective on covered addresses iff the raw windows, taken modulo 2^32, are disjoint |
| `PeImage.ReachDirectory` | manape/pe.cpp:579-623 | succeeds iff the header was parsed, the index is in bounds and the directory has an address that translates; moves the cursor there |
| `Imports.ParseHintNameTable` | manape/imports.cpp:24-58 | the hint and name of the entry; on success the cursor is back |
| `Imports.TableIsUnique` | manape/imports.cpp:62-121 | a table has only one decoding up to its first zero |
| `Imports.ParseImportLookupTable` | manape/imports.cpp:62-121 | succeeds iff the table decodes, repeats nothing and has at most 10001 entries, and then holds exactly its decoding; in every case distinct and bounded |
| `Imports.StoredTableDecodes` | manape/imports.cpp:24-58 | ordinals stored with the high bit, and symbols stored by the address of hint and name, decode to exactly these, in both entry sizes |
| `Imports.ReadStoredTable` | manape/imports.cpp:24-121 | a stored table is read iff it repeats nothing, has at most 10001 entries and is not at offset 0; every import comes back with its hint and name |
| `Relocations.ReadEntries` | manape/pe.cpp:809-820 | succeeds iff the file has room; the entries re-encode to the bytes read |
| `Relocations.ReadBlock` | manape/pe.cpp:793-820 | a whole block within the remaining size, a zero block, or evidence that there is neither |
| `Relocations.SmallBlocksAreHuge` | manape/pe.cpp:810-810 | a block size below eight wraps to at least four gibibytes of entries |
| `Relocations.BlockSizes` | manape/pe.cpp:810-822 | in a file under four gibibytes every block has b >= 8 and exactly (b - 8) / 2 entries |
| `Relocations.BlocksStep` | manape/pe.cpp:822-823 | a round conserves recorded sizes plus remaining size and the re-encoding of the blocks |
| `Relocations.BlocksAreUnique` | manape/pe.cpp:781-826 | a directory has only one decoding into blocks |
| `Relocations.BrokenIsUnfinished` | manape/pe.cpp:793-826 | where size remains but no whole block stands, the directory has no decoding |
| `Relocations.RelocationTable.ParseRelocations` | manape/pe.cpp:781-826 | succeeds iff the directory has a decoding, which it records; otherwise the blocks up to where size remains and no block stands; recorded and remaining sizes always make the directory's size |
| `OptionalHeader.StoresIsUnique` | manape/pe.cpp:304-392 | a file stores at most one optional header |
| `OptionalHeader.ReadDirectories` | manape/pe.cpp:385-392 | succeeds iff the directories fit; each is the pair of numbers at its place |
| `OptionalHeader.ReadFixedPart` | manape/pe.cpp:304-376 | accepted iff the file stores such fields at the absolute positions of PE32 or PE32+ |
| `OptionalHeader.ParseOptionalHeader` | manape/pe.cpp:282-396 | absent iff the size is zero; otherwise parsed iff the file stores a valid header, which is returned |
| `Authenticode.HashChunks` | plugins/plugin_authenticode/pe_authenticode_digest.cpp:72-83 | the chunks concatenate to the bytes up to the limit or the end of the file |
| `Authenticode.AuthenticodeHash` | plugins/plugin_authenticode/pe_authenticode_digest.cpp:46-84 | the file up to the certificate without checksum and directory 4, for PE32 and PE32+; only the part before directory 4 if the certificate starts too early |
| `Authenticode.DigestSeesExactlyTheRest` | plugins/plugin_authenticode/pe_authenticode_digest.cpp:46-84 | two files feed the digest the same bytes iff they agree outside the two fields |
| `Authenticode.SealingIsInvisible` | plugins/plugin_authenticode/pe_authenticode_digest.cpp:41-62 | storing a new checksum and certificate size changes just what the parser reads as these, and not the digest |
| `IconFile.EntryBytesOf` | plugins/plugin_ssim/icon_analysis.cpp:81-85 | reading an entry loses nothing |
| `IconFile.EntryLayout` | plugins/plugin_ssim/icon_analysis.cpp:81-85 | which bytes of an entry hold which field |
| `IconFile.IcoHeaderRead` | plugins/plugin_ssim/icon_analysis.cpp:70-86 | the directory whose encoding stands in the buffer, and the position after it |
| `IconFile.DirectoryIsUnique` | plugins/plugin_ssim/icon_analysis.cpp:70-86 | only one directory can be read at a place |
| `IconFile.LocateFirst` | manape/resources.cpp:671-683 | the image of an icon or cursor group is the first resource of type RT_ICON or RT_CURSOR with the identifier |
| `IconFile.LocateNone` | manape/resources.cpp:671-688 | and without one none is found |
| `IconFile.ImageIsData` | manape/resources.cpp:690-709 | the image is the whole resource for an icon, and what follows the four bytes of the hotspot for a cursor |
| `IconFile.AddImage` | manape/resources.cpp:690-712 | one round patches one entry and appends one image, leaving the rest of the buffer alone; an unusable cursor empties it |
| `IconFile.ReconstructIcon` | manape/resources.cpp:643-716 | fails iff there are too few resources or an image is missing; otherwise directory with offsets, then all images |
| `IconFile.ImagesTile` | manape/resources.cpp:694-705 | the images follow each other without gap or overlap |
| `IconFile.ImageInPlace` | manape/resources.cpp:694-705 | after all rounds each image stands at its offset |
| `IconFile.BufferIsReadable` | plugins/plugin_ssim/icon_analysis.cpp:70-86 | a file that was put together holds its whole directory |
| `IconFile.IconRoundTrip` | manape/resources.cpp:643-716 | reading it back gives the group's entries with ids replaced by offsets that lead to the images, which tile the rest |
| `ResourceTree.ReadName` | manape/resources.cpp:75-86 | the name of a named entry, failing without one; the cursor comes back |
| `ResourceTree.ReadDir` | manape/resources.cpp:28-99 | exactly the decoding of the directory, and where it leaves the cursor in every outcome |
| `ResourceTree.EntriesAreSound` | manape/resources.cpp:64-96 | kept entries point within the file size and are named iff they have a name |
| `ResourceTree.EntriesReadBack` | manape/resources.cpp:64-96 | stored entries are read back in order, except those that point beyond the file size |
| `ResourceTree.DirReadBack` | manape/resources.cpp:44-98 | a stored directory is read back whole, unless it is large and has characteristics |
| `ResourceTable.LeafReadBack` | manape/resources.cpp:139-213 | a stored data entry becomes a leaf with its size, code page and translated place, if the size is acceptable |
| `ResourceTable.Table.Add` | manape/resources.cpp:215-253 | recorded unless a resource has the same offset and size |
| `ResourceTable.Table.ParseLeaf` | manape/resources.cpp:134-253 | a leaf is accepted, passed over or fatal, as its decoding says |
| `ResourceTable.Table.ParseResources` | manape/resources.cpp:103-259 | however it ends, the table is the first-occurrence deduplication of the accepted leaves visited, places distinct, sizes between 1 and the file size |
| `ResourceTable.RecordsFirsts` | manape/resources.cpp:215-253 | recording one by one keeps exactly the leaves that are first at their place, in order |
| `ResourceTable.FirstsCover` | manape/resources.cpp:215-253 | every visited place has a resource, and no other place |
| `ResourceTable.RecordKeepsDistinct` | manape/resources.cpp:215-253 | no two resources share offset and size |
| `ResourceTable.OnePerPlace` | manape/resources.cpp:215-253 | of all leaves visited with one offset and one size, exactly one is in the table |
| `ResourceTable.TreeWalkAccepts` | manape/resources.cpp:118-213 | over the triple walk, accepted sizes are between 1 and the file size |
| `ResourceTable.TableIsSound` | manape/resources.cpp:103-259 | the table of every tree is deduplicated, with distinct places and bounded sizes |
| `ResourceRoundTrip.StoredTreeIsFlattened` | manape/resources.cpp:103-259 | a tree described by numbers, texts and places, and stored as the format says, is flattened to exactly its acceptable leaves, each with type, name, language, stamp and place; refused directories and entries beyond the file are passed over |
| `ResourceRoundTrip.ParseStoredTree` | manape/resources.cpp:103-259 | the table of a stored tree is its leaves without duplicates |
| `Xor.XorInvolution` | manape/pe.cpp:1127-1128 | masking twice with a key changes nothing |
| `Xor.XorOfBytes` | manape/pe.cpp:1127-1128 | masking a number masks each of its bytes |
| `RichHeader.FindMagic` | manape/pe.cpp:1092-1105 | the first aligned magic at 0 or before the PE header, or none exists |
| `RichHeader.HalvesOfId` | manape/pe.cpp:1133-1133 | the identifier is the upper half of the unmasked word, the product the lower |
| `RichHeader.EncodeDecode` | manape/pe.cpp:1121-1135 | a decoded block re-encodes to its bytes |
| `RichHeader.WalkBack` | manape/pe.cpp:1113-1140 | start offset plus 8 (entries + 1) is the magic's position, entries re-encode to the bytes in between in file order; otherwise there is no start marker |
| `RichHeader.ParseRichHeader` | manape/pe.cpp:1081-1142 | a header is returned iff the magic has a start marker a whole number of blocks before it |
| `RichHeader.ValuesInFile` | manape/pe.cpp:1121-1134 | the i-th value stands in the block i + 1 after the start: product, identifier and count, low bytes first, masked with the bytes of the key |
| `RichHeader.MarksAreTexts` | manape/pe.cpp:1100-1130 | the magic is the text Rich and the marker the masked text DanS |
| `RichChecksum.RotateInjective` | include/manape/utils.h:69-73 | rotation maps 32-bit numbers to 32-bit numbers, different ones to different ones |
| `RichChecksum.RotateParts` | include/manape/utils.h:69-73 | the top n bits move below the other bits, which move up |
| `RichChecksum.RolBack` | include/manape/utils.h:69-73 | rotating by n and then by its complement brings every number back |
| `RichChecksum.RolStep` | include/manape/utils.h:69-73 | rotating once more moves the top bit to the bottom, from no rotation on |
| `RichChecksum.ChecksumIsValid` | plugins/plugin_packer_detection.cpp:128-147 | the 32-bit loops decide whether the key is the checksum |
| `RichChecksum.EntryAdds` | plugins/plugin_packer_detection.cpp:141-145 | every entry adds its 32-bit identifier, rotated by its count |
| `RichChecksum.OneByteChangeIsSeen` | plugins/plugin_packer_detection.cpp:128-145 | changing one byte before the header changes the checksum iff it is not at 0x3c-0x3f |
| `RichChecksum.TamperingIsDetected` | plugins/plugin_packer_detection.cpp:147-154 | a header that matched no longer does after such a change |
| `RichChecksum.ZeroEntryAddsNothing` | plugins/plugin_packer_detection.cpp:141-145 | an all-zero identifier, with any count and at any place, leaves the checksum unchanged |
| `RichChecksum.EntryOrderDoesNotMatter` | plugins/plugin_packer_detection.cpp:141-145 | permuting the entries leaves the checksum unchanged |

## Left out

- JSON: the text of several flushes in one run is not read back; float, double, boolean and level nodes; real and signed numbers in the reader; a `\x` or octal escape inside a string literal is taken as two characters when looking for the closing quote; the escape helper's own failure path.
- JsonPrinter.DumpNode: the printed tree is a value, so the modifier reset that outlives the call on shared nodes is not captured.
- ClamTranslate.YaraRule.constructor: sub-signatures with an offset of `*`, and rules with a logical expression; the hexadecimal signatures are not kept.
- ClamTranslate.YaraRule.TranslateOffset: the case of `*` only.
- ClamAV offsets other than `*`, negative and ranged offsets, hexadecimal signatures, and the files around them.
- ClamMeaning.TranslationPreservesMeaning: for whole expressions the condition on comparisons is sufficient only, since a lossy comparison can be masked by the rest of the expression; it is exact for a single comparison.
- UTF: code points of the unchecked encoder beyond 21 bits, iterator adaptors, byte order marks, `advance` and `previous`.
- IconFile.IcoHeaderRead: a buffer shorter than its directory, which the original reads past, is excluded.
- OptionalHeader.ParseOptionalHeader: the fields other than magic, alignments, checksum, number of directories and directories are read over and not kept.
- PluginResult.Result.AddInformation: texts only; numbers and lists are added in the same way.
- PeImage.ReachDirectory: index 16, which the original lets through to read past the array, is excluded.
- ResourceRoundTrip.StoredTreeIsFlattened: directories said to be at place 0 of the tree, which the original reads wherever the cursor is, and trees with a data entry that cannot be located.
- IconFile.ReconstructIcon: an unusable cursor before the last entry makes the original write out of bounds, and is excluded; an allocation failure is not modelled; the resource data are given.
- ResourceTable.Table.ParseResources: type and language numbers are kept as numbers, without the constant tables that name them; reading the data of a resource is not part of it.
- RichHeader.FindMagic: a read that ends inside the last word counts as not found.
- Authenticode.AuthenticodeHash: the hash functions themselves, and headers so short that the original hashes uninitialised memory; a file that could not be opened.
- PE: DOS and COFF headers, section and symbol tables, exports, debug, TLS and load configuration directories, certificate table, version information, and import descriptors.
- I/O errors other than the end of the file; logging and warnings.
- SSIM, entropy, dates, base64, YARA, OpenSSL, networking, plugin loading, command line and the raw output format.
