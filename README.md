# goof2 core, modelled in Dafny

goof2 is an optimizing brainfuck virtual machine. This project models four
parts of it and proves properties about them:

1. **The rule-mining pipeline**, a set of offline Python tools:
   - `collect.py` normalizes every `.bf` program and writes a
     `raw<TAB>normalized` dataset (modules `Normalizer` and `Collector`);
   - `ml_optimizer/train.py` counts the distinct non-identical pairs and
     ranks them with `Counter.most_common` (modules `Counter` and `RuleMiner`);
   - `train_ml_model.py` keeps the most frequent replacement for each raw
     form (module `ModelTrainer`);
   - `generateMlModelHeader.py` turns a rule file into a C++ table of
     `{R"(pattern)", "replacement"}` entries and a count (module `HeaderGen`).

   Module `Text` gives the Python string operations these tools rely on:
   `strip`, `splitlines`, `split`, `replace`, `join`, reading lines from a
   text file, and string ordering.
2. **The shared rewrite helpers** (module `Shared`): `fold`,
   `processBalanced`, the splice performed by `regexReplaceInplace`, and the
   byte counter of `CountingResource`.
3. **The VM front end**:
   - the current translator with its peephole `emit` (module `FrontEnd`,
     from `src/vm.cxx` and its one-byte-cell twin `src/vm.cpp`);
   - the older translator with absolute jump targets (module
     `LegacyFrontEnd`, from `main.cxx`);
   - tape growth and the choice of memory model (module `Tape`).
4. **The stride-mask bit arithmetic** of the zero scans (module
   `StrideMask`). This covers the mask table and `legacyStrideMask32` of
   `tools/strideMaskBench.cxx`, `strideMask32/16` and `compressMask32/16`
   of `src/vm.cxx`, and `posmod` of `src/vm.cpp`.

Module `Arith` holds four small arithmetic lemmas used by the others.

Files are modelled as values. A directory listing is a sequence of
`File(name, content)`. A file's text is a `String`. A method that writes a
file returns the full text it writes, or the sequence of `write` calls it
makes. Cells, offsets and counts are unbounded integers. Every place where
the source truncates is written out: `int16_t` offsets wrap through `Wrap16`,
cell casts go through `CellCast`, and `CountingResource::bytes` wraps modulo
2^64.

Some properties one might expect of these tools do not hold of the code:

- `normalize` is not idempotent. `Normalizer.NotIdempotent` proves this on `"+<<+"`.
- An isolated single `+` or `-` is kept in place (`Normalizer.NormalizeKeepsIsolatedSign`), but an isolated `<` or `>` is not: the `+`/`-` pass can delete what separates two angles before the angle pass runs. `Normalizer.IsolatedAngleLost` proves `normalize("<++>") == "<"`.
- `train_ml_model.py` does not skip pairs whose raw and optimized forms are equal.
  `ModelTrainer.LineEntryOfRule` accepts them, so they reach `trainModel`.

## Model

| member | source | states |
|---|---|---|
| Text.Strip | tools/train_ml_model.py:14 | `str.strip()`: the result is `s` with only whitespace removed from its two ends, neither starts nor ends with whitespace, and is empty exactly when every character is whitespace |
| Text.StripTrailing | tools/generateMlModelHeader.py:19 | stripping a line whose text has no whitespace at either end only removes the trailing whitespace (the newline) |
| Text.SplitOnce | tools/ml_optimizer/train.py:22 | `split("\t", 1)` fails exactly when there is no tab; otherwise the line is `head + tab + tail`, and the head holds no tab |
| Text.SplitOnceJoin | tools/train_ml_model.py:18 | splitting `a + tab + b` at the first tab gives back `(a, b)` whenever `a` holds no tab, even if `b` does |
| Text.SplitAllCount | tools/generateMlModelHeader.py:22 | `split('\t')` gives one more field than there are tabs |
| Text.SplitAllTwo | tools/generateMlModelHeader.py:22-25 | a line holding exactly one tab splits into exactly its two sides |
| Text.SplitLines | tools/ml_optimizer/train.py:21 | `splitlines()` yields lines that hold no line boundary |
| Text.SplitLinesTerminated | tools/ml_optimizer/train.py:21 | `splitlines()` of newline-terminated lines gives back those lines |
| Text.SplitLinesJoin | tools/ml_optimizer/train.py:27 | `splitlines()` of nonempty lines joined with `\n` gives back those lines |
| Text.FileLines | tools/generateMlModelHeader.py:18 | iterating over a text file yields lines whose concatenation is the file, each nonempty and with `\n` only as its last character |
| Text.FileLinesTerminated | tools/generateMlModelHeader.py:18 | the lines of a newline-terminated file are its lines, each with its `\n` |
| Text.ReplaceWithLength | tools/ml_optimizer/collect.py:30 | `replace` grows the string by `len(t) - 1` for each replaced character |
| Text.LexTotal | tools/ml_optimizer/collect.py:27 | the order used by `sorted` on names is total on distinct names |
| Text.LexTransitive | tools/ml_optimizer/collect.py:27 | the order used by `sorted` on names is transitive |
| Normalizer.Filter | tools/ml_optimizer/collect.py:15 | deleting the characters outside a class leaves only class members and never lengthens the text |
| Normalizer.RunLength | tools/ml_optimizer/collect.py:16 | the run matched at the start of a text is maximal: all its characters are in the class, and the next one is not |
| Normalizer.CollapseRun | tools/ml_optimizer/collect.py:16 | a run of two or more class characters becomes its first character repeated (count of that character mod 2) times |
| Normalizer.CollapseKeepsOthers | tools/ml_optimizer/collect.py:16-17 | a collapse pass keeps every character outside its class, in order |
| Normalizer.CollapseNoAdjacent | tools/ml_optimizer/collect.py:16-17 | after a collapse pass, no two adjacent characters are both in the class |
| Normalizer.NormalizeAlphabet | tools/ml_optimizer/collect.py:15 | every character of `normalize(s)` is one of `+ - < > . , [ ]` |
| Normalizer.NormalizeShrinks | tools/ml_optimizer/collect.py:15-17 | `len(normalize(s)) <= len(s)` |
| Normalizer.NormalizeKeepsIoAndBrackets | tools/ml_optimizer/collect.py:15-17 | `.`, `,`, `[` and `]` survive normalization, in their original order |
| Normalizer.NormalizeNoAdjacentAngles | tools/ml_optimizer/collect.py:17 | no two adjacent characters of `normalize(s)` are both `<` or `>` |
| Normalizer.NormalizePlusMinusRun | tools/ml_optimizer/collect.py:16 | a program that is one `+`/`-` run of length two or more normalizes by the parity rule |
| Normalizer.NormalizeAngleRun | tools/ml_optimizer/collect.py:17 | a program that is one `<`/`>` run of length two or more normalizes by the parity rule |
| Normalizer.ParityOfUniformRuns | tools/ml_optimizer/collect.py:16 | `"++++"` becomes `""` and `"+++"` becomes `"+"` |
| Normalizer.ParityOfMixedRuns | tools/ml_optimizer/collect.py:16-17 | `"+-"` becomes `"+"`, `"-+"` becomes `"-"` and `"><"` becomes `">"` |
| Normalizer.MixedPair | tools/ml_optimizer/collect.py:16-17 | any two different characters of one class normalize to the first of them |
| Normalizer.NormalizeIgnoresComments | tools/ml_optimizer/collect.py:15 | removing comment characters first does not change the result |
| Normalizer.NotIdempotent | tools/ml_optimizer/collect.py:16-17 | `normalize("+<<+") == "++"` and `normalize("++") == ""`, so normalizing twice differs from normalizing once |
| Normalizer.CollapseIsolated | tools/ml_optimizer/collect.py:16-17 | a class character with no class character beside it is kept by a pass, and the text on either side is collapsed independently |
| Normalizer.NormalizeKeepsIsolatedSign | tools/ml_optimizer/collect.py:15-17 | a single `+` or `-` whose nearest instruction characters on both sides are not `+`/`-` survives: `normalize(a + c + b) == normalize(a) + c + normalize(b)` |
| Normalizer.IsolatedAngleLost | tools/ml_optimizer/collect.py:16-17 | the same fails for `<` and `>`: `normalize("<++>") == "<"`, because the `+`/`-` pass deletes the even run and the angle pass then joins the two angles |
| Collector.Programs | tools/ml_optimizer/collect.py:27 | the glob keeps exactly the listed files whose names end in `.bf` |
| Collector.ProgramsCount | tools/ml_optimizer/collect.py:27 | each `.bf` file is kept as often as it is listed, and every other file is dropped |
| Collector.SortByName | tools/ml_optimizer/collect.py:27 | `sorted` returns the files in strictly increasing name order, as a permutation of its input |
| Collector.SelectAndSort | tools/ml_optimizer/collect.py:27 | the processed files are exactly the `.bf` files of the listing, in sorted name order |
| Collector.ReadText | tools/ml_optimizer/collect.py:28 | `read_text` translates `\r\n` and `\r` into `\n`, so no `\r` remains and the text never grows |
| Collector.ReadTextLines | tools/ml_optimizer/collect.py:28 | lines free of `\r` and `\n`, each ended by `\r\n`, `\r` or `\n`, read back as the same lines each ended by `\n`, provided no `\r` ending is directly followed by an empty line ended by `\n` (the two would form one `\r\n`) |
| Collector.ReadTextPlain | tools/ml_optimizer/collect.py:28 | a text without `\r` is read unchanged |
| Collector.SampleShape | tools/ml_optimizer/collect.py:29-30 | a sample line holds no `\n`, has exactly one more tab than the program, and has length `len(raw) + 1 + len(normalize(raw))` |
| Collector.Collect | tools/ml_optimizer/collect.py:26-32 | the files are the listing's `.bf` files in sorted order, and the output is one `raw<TAB>normalize(raw)\n` line per file (raw with `\n` replaced by a space), in that order |
| Collector.JoinSamples | tools/ml_optimizer/collect.py:30-32 | the loop over the files builds the concatenation of their newline-terminated sample lines |
| Collector.BlankAgrees | tools/ml_optimizer/collect.py:30 | for programs with no tab and no line boundary other than `\n`, the corrected flattening equals `replace('\n', ' ')` |
| Collector.CleanSampleAgrees | tools/ml_optimizer/collect.py:30 | for such programs, the corrected sample line equals the line as written |
| Counter.Bump | tools/ml_optimizer/train.py:24 | `counts[p] += 1` raises the count of `p` by one, or appends `(p, 1)` for a new key, and leaves the other entries unchanged |
| Counter.BumpTotal | tools/ml_optimizer/train.py:24 | each increment adds one to the sum of the counts |
| Counter.TallyKeys | tools/ml_optimizer/train.py:20-24 | the counter's keys are exactly the counted items |
| Counter.TallyCounts | tools/ml_optimizer/train.py:20-24 | each key's count is its number of occurrences |
| Counter.TallyOrder | tools/ml_optimizer/train.py:20-24 | the counter keeps its keys in first-occurrence order |
| Counter.TallyTotal | tools/ml_optimizer/train.py:20-24 | the counts sum to the number of counted items |
| Counter.TallySize | tools/ml_optimizer/train.py:20-24 | the counter has one entry per distinct item |
| Counter.MostCommon | tools/ml_optimizer/train.py:26 | `most_common()` returns a permutation of the counter's entries |
| Counter.MostCommonRanked | tools/ml_optimizer/train.py:26 | `most_common()` lists the counts in non-increasing order, and equal counts in first-occurrence order (a stable sort) |
| Counter.MostCommonTotal | tools/ml_optimizer/train.py:26 | ranking keeps the sum of the counts |
| Counter.MostCommonMembers | tools/ml_optimizer/train.py:26 | ranking keeps every entry and every key, and adds none |
| RuleMiner.ParseLinesShape | tools/ml_optimizer/train.py:21-22 | either every line splits at its first tab, giving one pair per line, or the result names the first line without a tab |
| RuleMiner.ParseLinesFails | tools/ml_optimizer/train.py:22 | the unpacking raises `ValueError` exactly when some line holds no tab; such a line is never skipped |
| RuleMiner.RetainFacts | tools/ml_optimizer/train.py:23 | the counted pairs are exactly the dataset pairs with `raw != opt`, each as often as it occurs |
| RuleMiner.RetainOrder | tools/ml_optimizer/train.py:23-24 | dropping the identical pairs keeps the order of first occurrence |
| RuleMiner.Train | tools/ml_optimizer/train.py:20-27 | the loop, the ranking and the write produce the run that the counting and ranking functions define: either the `ValueError` or the rule text written to `MODEL_PATH` |
| RuleMiner.RankingOrder | tools/ml_optimizer/train.py:24-26 | the rules are in non-increasing order of count, and equal counts are in order of first occurrence in the dataset |
| RuleMiner.RankingCounts | tools/ml_optimizer/train.py:20-26 | every ranked pair is non-identical, its count is its number of occurrences in the dataset, and no pair is listed twice |
| RuleMiner.RankingKeys | tools/ml_optimizer/train.py:23-26 | a pair is ranked exactly when it occurs in the dataset with `raw != opt` |
| RuleMiner.RankingSize | tools/ml_optimizer/train.py:20-28 | the number of rules is the number of distinct non-identical pairs |
| RuleMiner.RankingTotal | tools/ml_optimizer/train.py:20-26 | the counts sum to the number of retained dataset lines |
| RuleMiner.RuleLinesDistinct | tools/ml_optimizer/train.py:26 | distinct ranked pairs give distinct `raw<TAB>opt` rule lines |
| RuleMiner.RankedSides | tools/ml_optimizer/train.py:26 | the ranked pairs come from the parsed lines, so their sides hold no line boundary and their raw sides no tab |
| RuleMiner.RulesReadBack | tools/ml_optimizer/train.py:26-27 | the rule lines joined with `\n` and no final newline split back into the same rule lines |
| RuleMiner.TrainOutput | tools/ml_optimizer/train.py:13-27 | a dataset that parses is written to the fixed `assets/ml_model.txt`; read back line by line, the content is the ranked rule lines, all distinct |
| RuleMiner.ParseJoined | tools/ml_optimizer/train.py:21-22 | lines built as `raw<TAB>opt`, with no tab in `raw`, parse back into those pairs |
| RuleMiner.DatasetParses | tools/ml_optimizer/collect.py:30-32 | for programs with no tab and no line boundary other than `\n`, the dataset written by `collect.py` parses into one `(flattened raw, normalized)` pair per program |
| RuleMiner.CleanDatasetParses | tools/ml_optimizer/collect.py:30 | with the corrected flattening, the dataset parses into one pair per program whatever the programs hold |
| RuleMiner.IndentedProgramMisread | tools/ml_optimizer/collect.py:30 | a tab-indented program `"\t+"` gives the line `"\t+\t+"`, which parses as the pair `("", "+\t+")` |
| RuleMiner.FormFeedProgramAborts | tools/ml_optimizer/train.py:21-22 | a program holding a form feed gives a sample that `splitlines` breaks in two, and the first piece has no tab, so training ends in `ValueError` |
| ModelTrainer.LineEntryFacts | tools/train_ml_model.py:14-20 | a line gives a pair exactly when, once stripped, it is not blank, does not start with `#` and holds a tab; it is then split at its first tab |
| ModelTrainer.LoadPairs | tools/train_ml_model.py:10-22 | the loop collects, in order, the pairs of the lines that the filter keeps |
| ModelTrainer.LineEntryShape | tools/train_ml_model.py:14-21 | a kept pair has a nonempty raw side without tab or leading `#`, and neither side has whitespace at its outer end |
| ModelTrainer.LineEntryOfRule | tools/train_ml_model.py:18-21 | a well-formed pair written as `raw<TAB>opt` is loaded back as itself, including a pair whose sides are equal |
| ModelTrainer.LoadedShape | tools/train_ml_model.py:13-21 | every loaded pair is well formed |
| ModelTrainer.LoadedRules | tools/train_ml_model.py:13-22 | loading the rule lines of well-formed pairs gives back those pairs |
| ModelTrainer.OptsOfCount | tools/train_ml_model.py:28-30 | the replacements gathered for a raw form count each `(raw, opt)` pair as often as it occurs |
| ModelTrainer.FirstMax | tools/train_ml_model.py:33 | `max` by count picks an entry whose count is maximal and that no earlier entry equals |
| ModelTrainer.TallyFirstMax | tools/train_ml_model.py:29-33 | the chosen replacement occurs, at least as often as any other, and first among equally frequent ones |
| ModelTrainer.BestFacts | tools/train_ml_model.py:27-34 | each raw form's chosen replacement was seen with it, is at least as frequent as every other replacement, and wins ties by first occurrence |
| ModelTrainer.ModelEntries | tools/train_ml_model.py:27-35 | every model entry is a pair of the input |
| ModelTrainer.ModelKeys | tools/train_ml_model.py:31-35 | the model has an entry exactly for each raw form of the input |
| ModelTrainer.ModelOrder | tools/train_ml_model.py:32-34 | the entries follow the first occurrence of their raw forms, so each raw form has exactly one entry |
| ModelTrainer.Lookup | tools/train_ml_model.py:29 | `setdefault` finds the group of a raw form, or reports that there is none |
| ModelTrainer.CountPairs | tools/train_ml_model.py:27-30 | the loop builds one counter per raw form, in first-seen order, counting its replacements |
| ModelTrainer.TrainModel | tools/train_ml_model.py:25-35 | the method returns the model that the grouping and the first-maximum choice define |
| ModelTrainer.ChoiceStep | tools/train_ml_model.py:31-34 | the second loop has one model entry per group and picks the first maximum of that group |
| ModelTrainer.SaveModel | tools/train_ml_model.py:38-42 | the file holds one `raw<TAB>opt\n` line per entry, in order |
| ModelTrainer.SavedModelLoads | tools/train_ml_model.py:38-42 | loading a saved model of well-formed pairs gives back the model |
| ModelTrainer.ModelFileReloads | tools/train_ml_model.py:62-64 | the model trained from any pair file, once saved, loads back as itself |
| HeaderGen.EscapeCons | tools/generateMlModelHeader.py:7 | `escape_cpp` works character by character: `\` becomes `\\`, `"` becomes `\"`, and every other character is kept |
| HeaderGen.EscapeLength | tools/generateMlModelHeader.py:7 | `len(escape_cpp(s)) == len(s) + count(s, '\\') + count(s, '"')` |
| HeaderGen.EscapeAbsent | tools/generateMlModelHeader.py:7 | a string without `\` and `"` is unchanged |
| HeaderGen.ReadEscaped | tools/generateMlModelHeader.py:6-7 | reading `escape_cpp(s)` as the body of a C++ ordinary string literal gives back `s` and the text after the closing quote |
| HeaderGen.ReadRawBack | tools/generateMlModelHeader.py:36 | a raw string literal `R"(p)"` is read back as `p` when `p` holds no `)"` |
| HeaderGen.RawEndCuts | tools/generateMlModelHeader.py:36 | a raw literal ends at the first `)"` |
| HeaderGen.HeaderRuleFacts | tools/generateMlModelHeader.py:19-26 | a line yields a rule exactly when, stripped, it is not blank, does not start with `#` or `//`, and splits into exactly two tab-separated fields |
| HeaderGen.ReadRules | tools/generateMlModelHeader.py:16-26 | the loop collects the rules of the kept lines of the input file, in order |
| HeaderGen.WriteHeader | tools/generateMlModelHeader.py:29-39 | the writes are the prologue, one entry per rule in input order, the close and the count, and together they form the header |
| HeaderGen.WritesMakeHeader | tools/generateMlModelHeader.py:29-39 | the sequence of writes concatenates to the header text |
| HeaderGen.TableEntries | tools/generateMlModelHeader.py:35-36 | the table is the entries of the rules, one per rule, in order |
| HeaderGen.GenerateHeader | tools/generateMlModelHeader.py:16-39 | the generated file is the header of the rules of the input |
| HeaderGen.EntryReads | tools/generateMlModelHeader.py:36 | an entry `{R"(pattern)", "escaped"},` reads back as its rule when the rule is writable |
| HeaderGen.TableReads | tools/generateMlModelHeader.py:34-37 | the table reads back as its rules, in order |
| HeaderGen.HeaderReads | tools/generateMlModelHeader.py:29-39 | a header of writable rules declares exactly those rules, in order |
| HeaderGen.HeaderCount | tools/generateMlModelHeader.py:38 | `mlModelCount` of such a header is the number of rules emitted |
| HeaderGen.EmptyHeader | tools/generateMlModelHeader.py:30-39 | with no rules the writes are the prologue, ending in `mlModel[] = {`, directly followed by `};` and the trailer, and the count read back is 0 |
| HeaderGen.CommentsSkipped | tools/generateMlModelHeader.py:20-21 | a blank line and a `#` comment are skipped, and a rule line is kept |
| HeaderGen.RuleLineKept | tools/generateMlModelHeader.py:19-26 | a rule line `pattern<TAB>replacement\n` without tabs or outer whitespace in its fields yields that rule |
| HeaderGen.RawEndRuleKept | tools/generateMlModelHeader.py:19-26 | a rule whose pattern is `)"` passes the filter |
| HeaderGen.RawEndBreaksHeader | tools/generateMlModelHeader.py:36 | the pattern `)"` is kept and emitted unguarded, and the header no longer reads back as a table |
| HeaderGen.RulesShape | tools/generateMlModelHeader.py:19-26 | the kept rules hold no newline, so the escaped quoting writes them all |
| HeaderGen.EscapedHeaderReads | tools/generateMlModelHeader.py:36 | with the pattern escaped like the replacement, the header of any rule file declares exactly its rules |
| HeaderGen.RulesOfSavedLines | tools/generateMlModelHeader.py:18-26 | the lines of keepable rules yield exactly those rules |
| HeaderGen.SavedModelHeader | tools/generateMlModelHeader.py:16-26 | a model file written by `saveModel` gives the header exactly the trained rules, when no replacement holds a tab and no pattern starts with `/` |
| HeaderGen.DeletionRuleDropped | tools/generateMlModelHeader.py:19-24 | a rule with an empty replacement loses its tab to `strip`, so the line is skipped |
| Shared.RunAfter | src/bfShared.hxx:20 | the run of `match` after index `i` stays inside the code |
| Shared.RunAfterMaximal | src/bfShared.hxx:20-23 | the run after `i` is maximal: each of its characters is `match`, and the next one is not |
| Shared.RunAfterIgnoresStart | src/bfShared.hxx:19-20 | `fold` never looks at `code[i]` itself |
| Shared.Fold | src/bfShared.hxx:18-25 | `fold` returns 1 plus the length of the run of `match` after `i`, advances `i` by the count minus one, and leaves `i < code.length()` |
| Shared.CountRepeat | src/bfShared.hxx:29 | `std::string(n, c)` has length `n`, and its only character is `c` |
| Shared.ProcessBalancedShape | src/bfShared.hxx:27-30 | the result has length \|count(no1) - count(no2)\|, holds only `no1` when the net count is positive and only `no2` when it is negative, and is empty exactly when the counts balance |
| Shared.ProcessBalancedNet | include/vm/optimizer.hxx:36-39 | the result keeps the net count of `no1` over `no2` |
| Shared.ProcessBalancedIdempotent | src/vm.cxx:401-404 | a second application changes nothing |
| Shared.ProcessBalancedShortest | main.cxx:26-30 | no string with the same net count is shorter than the result, and the result is no longer than its input |
| Shared.CancelUnlikeNormalize | src/vm.cpp:252-255 | `"+-"` and `"><"` cancel to the empty string, while `normalize` keeps `"+"` and `">"` |
| Shared.SpliceLength | include/vm/optimizer.hxx:52-59 | the result's length is the input's, minus the matched text, plus the inserted text |
| Shared.SpliceIdentity | include/vm/optimizer.hxx:52-59 | replacing every match by its own text gives back the input |
| Shared.ReplaceInPlace | include/vm/optimizer.hxx:42-61 | the result is the gaps between the matches, interleaved with the callback outputs, followed by the text after the last match; with no match the string is unchanged |
| Shared.CountingResource.constructor | include/vm/optimizer.hxx:18-21 | the counter starts at zero |
| Shared.CountingResource.Allocate | include/vm/optimizer.hxx:24-27 | `bytes` grows by `s`, modulo 2^64 like `std::size_t` |
| Shared.CountingResource.Deallocate | include/vm/optimizer.hxx:28-30 | `bytes` is left unchanged |
| FrontEnd.CellCast | src/vm.cxx:529 | `static_cast<CellT>` keeps the value modulo the cell width and fits an `int32_t` |
| FrontEnd.Wrap16 | src/vm.cxx:579 | the `int16_t` offset stays in range and keeps its value modulo 2^16 |
| FrontEnd.Apply | src/vm.cxx:519-522 | a write instruction leaves the cell inside the cell width |
| FrontEnd.EmitSemantics | src/vm.cxx:515-552 | `emit` appends unless both the new and the last instruction are writes at the same offset; it then replaces the last write with one that leaves the cell as the two writes in sequence would, and keeps both vectors the same length |
| FrontEnd.EmitByteCells | src/vm.cpp:357-386 | with one-byte cells, an `ADD_SUB` merged into a `SET` or `CLR` leaves a `SET` of a byte, and the merged write acts on an 8-bit cell as the two writes would |
| FrontEnd.Emitter.constructor | src/vm.cxx:508-513 | the translator starts with empty instruction and opcode vectors |
| FrontEnd.Emitter.Emit | src/vm.cxx:515-552 | the vectors become those of the `emit` function above |
| FrontEnd.DepthsStuck | src/vm.cxx:590 | once a `]` meets an empty stack, translation fails whatever follows |
| FrontEnd.DepthsCount | src/vm.cxx:586-595 | while no `]` is unmatched, the stack depth is count(`[`) - count(`]`) |
| FrontEnd.DepthsOfBrackets | src/vm.cxx:584-600 | the stack depth depends only on the brackets of the code, in order |
| FrontEnd.LevelIsDepths | src/vm.cxx:584-600 | reading `JMP_ZER` as `[` and `JMP_NOT_ZER` as `]`, the jump depth over a stretch of the opcodes is the bracket depth of the brackets the jumps stand for |
| FrontEnd.LevelJoin | src/vm.cxx:584-600 | jump depths add up over consecutive stretches |
| FrontEnd.MatchUnique | src/vm.cxx:589-599 | after the `JMP_NOT_ZER` that balances the stretch following a `JMP_ZER`, no later `JMP_NOT_ZER` balances it again |
| FrontEnd.PairedMatches | src/vm.cxx:593-598 | in a program without open brackets, the `JMP_NOT_ZER` that a `JMP_ZER`'s distance reaches is exactly its matching one: the only later `JMP_NOT_ZER` with balanced jumps in between |
| FrontEnd.EmitTally | src/vm.cxx:515-552 | `emit` adds a `PUT_CHR`'s repeat count to the output total and a `RAD_CHR` to the input count, and a merge changes neither, since it only replaces a write by a write |
| FrontEnd.MoveOffset | src/vm.cxx:554-558 | the vectors gain one `PTR_MOV` carrying the pending offset when it is nonzero and nothing otherwise, the offset becomes zero, and the loop invariant and the I/O tallies are kept |
| FrontEnd.EmitRun | src/vm.cxx:562-577 | the maximal run of `+`, `-` or `.` at `i` (as long as `fold` says) is passed to `emit` as one instruction at the pending offset: `ADD_SUB` (or `SET` after `S`) of the run length, of its negation (cast to the cell type for a `SET`), or `PUT_CHR` of the run length; the loop then resumes after the run with the invariant and the tallies kept |
| FrontEnd.MoveRun | src/vm.cxx:578-583 | a run of `>` or `<` leaves the vectors alone and sets the offset to `int16_t(offset ± int16_t(n))` for the run length `n`; the loop resumes after the run |
| FrontEnd.OpenBracket | src/vm.cxx:584-588 | after the flush, a `JMP_ZER` with data 0 is appended and its index pushed on the brace stack |
| FrontEnd.CloseBracket | src/vm.cxx:589-599 | after the flush, the innermost open `JMP_ZER` at `start` gets data `size - start`, a `JMP_NOT_ZER` with the same distance is appended, and `start` is popped |
| FrontEnd.OtherChar | src/vm.cxx:605-610 | `,` emits `RAD_CHR` and `C` emits `CLR` at the pending offset; `S` and every other character leave the vectors unchanged |
| FrontEnd.Step | src/vm.cxx:561-629 | one turn of the loop fails only on an unmatched `]` and otherwise keeps the loop invariant |
| FrontEnd.Unmatched | src/vm.cxx:590 | a `]` met with an empty brace stack means the whole code has an unmatched `]` |
| FrontEnd.Scan | src/vm.cxx:560-630 | the loop either returns early on an unmatched `]` of the code, or consumes all of it keeping the invariant |
| FrontEnd.Finish | src/vm.cxx:631-634 | the end flushes the offset, appends `END` and returns 2 exactly when a `[` is still open |
| FrontEnd.EndKept | src/vm.cxx:631-632 | appending `END` to a closed translation gives a finished program |
| FrontEnd.Translate | src/vm.cxx:508-634 | the result is 1 exactly on an unmatched `]`, 2 exactly on an unmatched `[`, and otherwise a program ending in `END` whose jumps are the brackets of the code in order, in which each `JMP_ZER` and its matching `JMP_NOT_ZER` carry the distance between them, no pointer move is zero, the moves add up (mod 2^16) to count(`>`) - count(`<`), the `PUT_CHR` counts add up to count(`.`), and there is one `RAD_CHR` per `,` |
| FrontEnd.TranslateBytes | src/vm.cpp:352-461 | the one-byte-cell translator has the same error codes, returns a program exactly when the brackets balance, and its programs have the same structure and tallies |
| LegacyFrontEnd.LinkedMatches | main.cxx:202-205 | in a program without open brackets, the `JMP_NOT_ZER` whose index a `JMP_ZER` holds is exactly its matching one |
| LegacyFrontEnd.MoveOffset | main.cxx:174 | the vectors gain one `PTR_MOV` carrying the pending offset when it is nonzero and nothing otherwise, and the loop invariant is kept |
| LegacyFrontEnd.WriteRun | main.cxx:177-210 | the maximal run of `+`, `-` or `.` at `i` becomes exactly one appended instruction at the pending offset, with no merging: `ADD_SUB` (or `SET` after `S`) of plus or minus the run length, or `PUT_CHR` of the run length |
| LegacyFrontEnd.MoveRun | main.cxx:185-190 | a run of `>` or `<` leaves the vectors alone and sets the offset to `int16_t(offset ± n)` for the run length `n` |
| LegacyFrontEnd.OpenBracket | main.cxx:191-195 | after the flush, a `JMP_ZER` with data 0 is appended and its index pushed on the brace stack |
| LegacyFrontEnd.CloseBracket | main.cxx:196-207 | after the flush, the innermost open `JMP_ZER` at `start` gets the index of the new last instruction, a `JMP_NOT_ZER` holding `start` is appended, and `start` is popped |
| LegacyFrontEnd.OtherChar | main.cxx:211-231 | `,` appends `RAD_CHR` and `C` appends `CLR` at the pending offset; `S` and every other character append nothing |
| LegacyFrontEnd.Step | main.cxx:176-235 | one turn of the loop fails only on an unmatched `]` and otherwise keeps the loop invariant |
| LegacyFrontEnd.Scan | main.cxx:175-236 | the loop either stops on an unmatched `]` or ends with the stack depth of the whole code |
| LegacyFrontEnd.Finish | main.cxx:237-241 | the end flushes the offset, appends the end instruction and returns 2 exactly when a `[` is still open |
| LegacyFrontEnd.Translate | main.cxx:171-243 | the result is 1 exactly on an unmatched `]`, 2 exactly on an unmatched `[`, and otherwise a program whose jumps are the brackets of the code in order, each `JMP_ZER` holding the index of its matching `JMP_NOT_ZER` and that one the index of the `JMP_ZER`; the moves add up (mod 2^16) to count(`>`) - count(`<`), the writes add up to count(`+`) - count(`-`) with one write per run, the `PUT_CHR` counts add up to count(`.`), and there is one `RAD_CHR` per `,` |
| LegacyFrontEnd.EndKept | main.cxx:237-238 | appending the end instruction to a closed translation gives a complete program |
| Tape.SelectModelMonotone | src/vm.cxx:915-924 | with a dynamic tape, more than 2^24 cells select Paged, more than 2^16 select Fibonacci, and larger tapes never select a model meant for smaller ones; a fixed tape is always Contiguous |
| Tape.PagedSize | src/vm.cxx:655 | the paged size is the least multiple of 65536 that covers the need |
| Tape.Tape.constructor | src/vm.cxx:649 | the tape is the vector as given, of any size, with the model `execute` selects from that size; both Fibonacci terms start at the tape's size |
| Tape.Tape.Ensure | src/vm.cxx:650-675 | `ensure` fails exactly when a nonzero limit is below `neededIndex + 1`; otherwise it never ends exactly when the model is doubling and the tape is empty, and else the index is inside the tape; the old cells are kept; paged growth gives a multiple of 65536, doubling gives the old size times a power of two below twice the need, and Fibonacci growth leaves `(fibA, fibB)` at `FibSteps` of the old terms, with the tape at the size `fibB`; the Fibonacci terms are unchanged when `ensure` refuses or the model is not Fibonacci |
| Tape.FibSteps | src/vm.cxx:659-664 | stepping `(fibA, fibB)` to `(fibB, fibA + fibB)` stops at the first pair whose larger term covers the need; the smaller term is then below the need unless no step was taken |
| Tape.Tape.GrowFibonacci | src/vm.cxx:659-666 | the Fibonacci loop ends with `(fibA, fibB)` equal to `FibSteps` of the old terms, the tape at size `fibB`, the need covered and the old cells kept |
| Tape.Tape.GrowDoubling | src/vm.cxx:668-670 | the doubling loop never ends exactly when the tape is empty and the need positive; otherwise it ends with the need covered, at the old size times a power of two, and below twice the need |
| Tape.DoublingTape.constructor | src/vm.cpp:466-468 | the older interpreter's tape starts as given |
| Tape.DoublingTape.DoubleIfNeeded | src/vm.cpp:482-490 | a positive move past the end doubles the tape once; an index below twice the old size is then inside, and one at twice the old size or beyond is still outside |
| StrideMask.StrideBits | tools/strideMaskBench.cxx:13-28 | the mask sets exactly the bits of the lanes `i` with `(i + phase) % Step == 0` |
| StrideMask.LaneSpan | tools/strideMaskBench.cxx:21-22 | the bits of lane `i` are bits `i*Bytes` up to `i*Bytes + Bytes - 1` |
| StrideMask.LanesCover | tools/strideMaskBench.cxx:15 | the `32/Bytes` lanes cover the whole 32-bit word |
| StrideMask.LaneLoop | tools/strideMaskBench.cxx:43-52 | the general loop of `legacyStrideMask32` builds exactly the stride mask |
| StrideMask.BuildTable | tools/strideMaskBench.cxx:13-28 | the table holds, for each phase below `Step`, the stride mask of that phase |
| StrideMask.BitAndLowMask | tools/strideMaskBench.cxx:33 | `phase & (Step - 1)` is `phase % Step` for a power-of-two `Step` |
| StrideMask.StrideBitsPeriodic | tools/strideMaskBench.cxx:20 | the mask of `phase` equals the mask of `phase % Step` |
| StrideMask.Lookup | tools/strideMaskBench.cxx:33 | the table index `phase & (Step - 1)` is always in range |
| StrideMask.LookupSelects | tools/strideMaskBench.cxx:31-34 | the table lookup returns the stride mask of any phase |
| StrideMask.StrideMaskAsWritten | tools/strideMaskBench.cxx:36-53 | for one-byte cells and steps 2, 4 and 8 the result is the shifted shortcut constant; otherwise it is the stride mask |
| StrideMask.StrideMaskCorrected | src/vm.cxx:48-72 | with the shortcut shifted to the lanes the loop selects, the result is always the stride mask |
| StrideMask.ShortcutCorrectedSelects | src/vm.cxx:50-57 | the shortcut constant shifted by `(step - phase % step) % step` is exactly the stride mask |
| StrideMask.ShortcutAgreesIff | tools/strideMaskBench.cxx:38-42 | the shortcut as written agrees with the loop exactly when the phase is 0 or half the step |
| StrideMask.ShortcutCounterexample | tools/strideMaskBench.cxx:40 | for step 4 and phase 1 the shortcut gives lanes 1, 5, 9, … (`0x22222222`) where the loop gives lanes 3, 7, 11, … (`0x88888888`) |
| StrideMask.StrideMaskPopcount | tools/strideMaskBench.cxx:15-26 | when `Step` divides the lane count, the mask has `Bytes * (32/Bytes) / Step` bits set |
| StrideMask.CompressLanes | src/vm.cxx:100-111 | after `compressMask32`, a bit is set exactly when it is the lowest bit of a lane in which some bit was set |
| StrideMask.CompressPairs | src/vm.cxx:113-124 | for two-byte cells, `((m >> 1) \| m) & 0x5555…` sets the even bit of each pair that had a bit set |
| StrideMask.CompressQuads | src/vm.cxx:100-111 | for four-byte cells, the two or-shifts and the mask set the lowest bit of each nibble that had a bit set |
| StrideMask.ScanHit | src/vm.cxx:270-271 | with the mask of the lane loop (every multi-byte cell width, and the corrected mask for one-byte cells), the hit test `compressMask(m) & strideMask(step, phase)` sets a bit exactly at the start of a selected lane holding a zero cell |
| StrideMask.ScanHitAsWritten | src/vm.cxx:270-271 | for one-byte cells and steps 2, 4, 8, where the mask is the shortcut as written, bit `k` hits exactly when cell `k` is zero and `k % step == phase` |
| StrideMask.ScanMissAsWritten | src/vm.cxx:270-271 | so when the phase is neither 0 nor half the step, a zero cell at the selected lane `step - phase` gives no hit |
| StrideMask.PosMod | src/vm.cpp:50-54 | `posmod(x, m)` is below `m` |
| StrideMask.PosModResidue | src/vm.cpp:50-54 | `posmod(x, m)` is the mathematical residue of `x` modulo `m`, for negative `x` as well |

## Left out

- The interpreter's dispatch loops (`src/vm.cxx` after line 642, `src/vm.cpp` after line 466, `main.cxx` after line 246) are not modelled. They use computed `goto` over raw pointers and do terminal I/O. Only the tape growth they trigger is modelled.
- The SIMD zero scans are not modelled, because they rely on vector intrinsics. Only their mask arithmetic is modelled: the stride masks, `compressMask` and the hit test.
- The regular-expression optimization passes, `regexCollect` and the ML rule rewriting are not modelled, because they depend on a regex engine's semantics. Only the splice structure of `regexReplaceInplace` is modelled: the matches are given as spans and the callback outputs as strings.
- FrontEnd.Translate, FrontEnd.TranslateBytes, LegacyFrontEnd.Translate: they require that the code holds no `P`, `R`, `L` (and, for the legacy translator, `V`). These letters only come from the regex passes, which fill the operand maps. With those passes off, the letters index empty maps.
- FrontEnd.Translate, FrontEnd.TranslateBytes, LegacyFrontEnd.Translate: their contracts state the structure of the result: error codes, the jumps as the code's brackets and their pairing, nonzero moves, the move, output and input totals, and the `END`; the legacy contract adds the write total and one write per run. They do not state the operand and offset of every instruction as one formula of the code. The step methods (`EmitRun`, `CloseBracket`, `WriteRun`, …) state each instruction as it is emitted.
- FrontEnd.Translate: it states no total of the writes. `emit` merges writes at one offset: a `SET` or `CLR` absorbs the `ADD_SUB`s after it and replaces those before it, so the write operands do not add up to count(`+`) - count(`-`). `FrontEnd.EmitSemantics` states what each merge does to the cell instead.
- HeaderGen.HeaderReads, HeaderGen.HeaderCount: they also hold for an empty rule list. The header then declares `mlModel[] = {` directly followed by `};` (`HeaderGen.EmptyHeader`). Standard C++ rejects an empty initializer for an array of unknown bound; GCC and Clang accept it only as an extension. Whether the header compiles is not modelled.
- FrontEnd.TranslateBytes: it states the same error codes and structure as the `src/vm.cxx` translator. It does not state that the two translators produce identical vectors.
- Tape.Tape.constructor, Tape.Tape.Ensure, Tape.Tape.GrowDoubling: `execute` accepts an empty cell vector, and with a dynamic tape that selects doubling growth. The first `ensure` on it then loops forever, because doubling zero cells gives zero cells (`src/vm.cxx:668-670`). The model does not loop: it returns `Diverges` and leaves the tape unchanged.
- FrontEnd.EmitSemantics: it states what a merged write does to one cell. It does not model the `int32_t` overflow of `last.data += inst.data` on huge runs, because the operands are unbounded integers.
- Shared.Fold: it returns an unbounded count. `int32_t` overflow needs a run of more than 2^31 characters and is not modelled.
- StrideMask.CompressLanes: `compressMask` shifts a signed `int` right, which is an arithmetic shift. The model uses a logical shift. The two differ only in the top bit, which the final mask clears.
- The stride-mask model works on masks of 16 or 32 bits as sequences of booleans, not on `uint32_t` values. The hexadecimal constants appear only in comments and in the counterexample.
- Reading, writing, `mkdir`, argument parsing, UTF-8 decoding and `print` in the Python tools are not modelled. Files are given as text values, and writes return the text written. A directory listing is given as a sequence of distinct names.
- The rest of the repository is not part of this model: the REPL and terminal UI, the thread pool and parallel execution, the loop cache, the JIT (sljit), the platform memory mapping, and the tools that use floating point or ML libraries.

## Findings

| source | as written | input that shows it | evidently intended | confidence | as-written member | corrected member |
|---|---|---|---|---|---|---|
| tools/ml_optimizer/collect.py:30 | only `\n` is flattened before the tab is appended, so a tab inside the program, or a line boundary that `splitlines` also accepts (form feed, `\x1c`, …), reaches `train.py` | program `"\t+"` gives the line `"\t+\t+"`, read as the pair `("", "+\t+")`; program `"+\f+"` gives a line that `splitlines` splits in two, and `train.py` stops with `ValueError` | one dataset line and one tab per program, read back as `(flattened raw, normalize(raw))` | high (proof; not executed) | RuleMiner.IndentedProgramMisread, RuleMiner.FormFeedProgramAborts | RuleMiner.CleanDatasetParses |
| tools/strideMaskBench.cxx:38-42 | for `Bytes == 1` and steps 2, 4, 8 the mask is `pattern << phase`, which selects the lanes with `(i - phase) % step == 0` | step 4, phase 1: the shortcut gives `0x22222222`, the loop `0x88888888`; the same shortcut is in src/vm.cxx:50-57 and 76-83 | the lanes with `(i + phase) % step == 0`, as the general loop and the table compute | high (proof; not executed) | StrideMask.ShortcutCounterexample | StrideMask.StrideMaskCorrected |
| tools/generateMlModelHeader.py:36 | the pattern goes into `R"(...)"` unguarded, and the filter keeps a pattern that holds `)"` | the rule line `)"<TAB>x` is kept, and its entry ends the raw literal early, so the header no longer declares the table | every kept rule appears in the table as written | high (proof; not executed) | HeaderGen.RawEndBreaksHeader | HeaderGen.EscapedHeaderReads |

The translators, `Collector.Collect` and `HeaderGen.GenerateHeader` model
the code as written. The corrected members show what the evident intent
guarantees: `Collector.CleanSample` with a dataset that always parses,
`StrideMask.StrideMaskCorrected` with a mask that equals the loop's, and
the `Escaped` quoting with a header that always reads back.
