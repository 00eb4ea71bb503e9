# Controlled-vocabulary generator, BiblioSpec string helpers and Mascot cron options

This project models three pieces of ProteoWizard and proves properties of each.

1. **`cvgen`** turns parsed OBO ontologies into a C++ lookup library. The library has:
   - one enumerator per term, with a code of `id + 10^8 × ontology index`;
   - the tables `termInfos_`, `relationsIsA_`, `relationsPartOf_`, `relationsExactSynonym_` and `oboPrefixes_`;
   - the runtime functions `initialize`, `cv`, `CV::empty`, `shortName`, `prefix`, `stringToCVID`, `cvTermInfo(string)`, `cvIsA` and `cvids`.

   Here the generator is a function from a sequence of ontologies (`Obo`, each an ordered sequence of `Term`s) to the rows of those tables (`GeneratedTables`). The emitting loops are methods proved equal to it. The runtime works on an explicit `CvDatabase` value built from the rows (`Initialized`) by a looping `Initialize` method. `CompileLiteral` models how the C++ compiler reads an emitted string literal: simple, octal and hexadecimal escapes are decoded, and a literal that would end early or not compile gives no value. `CompileTables` applies it to every table, keeping each string up to its first NUL, as the `const char*` the runtime copies from designates. The round-trip lemmas in `CvRoundTrip` then connect a term of the input to the record the runtime returns for its accession string.
2. **BiblioSpec `BlibUtils`** provides:
   - lookup between score-type names and codes;
   - path splitting (`getPath`, `getFileRoot`, `hasExtension`, `replaceExtension`);
   - the in-place counting substitution `replaceAllChar`;
   - `deleteTrailingWhitespace`;
   - `strcpy_all_caps`.
3. **Mascot parser `ms_cronjob` / `ms_cronoptions`** are classes. A job has five fixed-size boolean schedule arrays and a command string. The options hold two flags and a job list.

Modules and files:

| module | file | contents |
|---|---|---|
| `Wrappers` | wrappers.dfy | `Option`, `Result` |
| `Ascii` | ascii.dfy | C `<ctype.h>` classes used by the source (`isalnum`, `isspace`, `toupper`) |
| `CvIds` | cv_ids.dfy | enumerator codes and names, include guard, zero-padded accession strings |
| `CvEscape` | cv_escape.dfy | `escape_copy` and the C++ literal reading that undoes it |
| `CvVersion` | cv_version.dfy | the two header patterns and the version scan |
| `CvTables` | cv_tables.dfy | input datatypes, term maps, generated table rows and the emitting loops |
| `Seqs` | seqs.dfy | first position of an element in a sequence (`std::find`) |
| `CvRuntime` | cv_runtime.dfy | the runtime database, `initialize` and the query functions |
| `CvRoundTrip` | cv_roundtrip.dfy | generator → compiled literals → runtime lookups |
| `BlibUtils` | blib_utils.dfy | the BiblioSpec helpers |
| `Cron` | cron_options.dfy | `ms_cronjob` and `ms_cronoptions` as classes |

Fixed-width and library semantics are modelled explicitly:
- `size_t` is 64 bits wide, so `string::npos` is 2^64 − 1. `getFileRoot` starts the name at 0 when there is no slash, and computes its length `lastDot - lastSlash` modulo 2^64, as the C++ does.
- `unsigned long` in `strtoul` is 32 bits wide (`ULongMax`). A value above that bound is the overflow error.
- The cast of the computed code to the 32-bit `CVID` enum is `ToCvid`.
- `strtoul` skips leading white space and accepts one sign; a `-` negates the value modulo 2^32, as C does. The lemmas state what happens on digit strings and on text that starts with something else.

## Model

| member | source | states |
|---|---|---|
| CvIds.EnumValue | pwiz/data/msdata/cvgen.cpp:118-124 | for a local id below 10^8, the code divides into the ontology index and leaves the id as remainder; index 0 leaves the id unchanged |
| CvIds.BlockOfEnumValue | pwiz/data/msdata/cvgen.cpp:118-124 | splitting a code into (index, id) inverts `enumValue` |
| CvIds.EnumValueInjective | pwiz/data/msdata/cvgen.cpp:118-124 | two (index, id) pairs with ids below 10^8 and equal codes are equal |
| CvIds.EnumNameIsIdentifier | pwiz/data/msdata/cvgen.cpp:103-115 | after the prefix, the enumerator name consists only of identifier characters; an all-alphanumeric name is copied verbatim |
| CvIds.EnumNameIsIdentifierWhole | pwiz/data/msdata/cvgen.cpp:103-109 | with a prefix of identifier characters not starting with a digit, the whole enumerator name is a C++ identifier |
| CvIds.IncludeGuardString | pwiz/data/msdata/cvgen.cpp:77-82 | the guard is `_`, the upper-cased basename, then `_HPP_`, and contains no lower-case letter |
| CvIds.IdString | pwiz/data/msdata/cvgen.cpp:292 | an accession is the prefix, `:`, then at least seven digits whose value is the id |
| CvIds.IdStringDigits | pwiz/data/msdata/cvgen.cpp:292 | the number part is exactly the id padded to seven digits (or its digits when longer), so the accession is `max(7, digit count)` characters past the `:` |
| CvIds.PaddedDecimalValue | pwiz/data/msdata/cvgen.cpp:292 | zero padding to width seven preserves the decimal value |
| CvIds.PaddedDecimalWidth | pwiz/data/msdata/cvgen.cpp:292 | as `setw` with `setfill('0')`: exactly the width when the digits are fewer, else the digits alone, the digits last and only `0` before them |
| CvEscape.EscapeCopy | pwiz/data/msdata/cvgen.cpp:241-257 | the nine sequential `replace_all` calls give exactly `Escaped`: one extra backslash before each `\` followed by one of `!:,()[]{}` |
| CvEscape.CompileEscaped | pwiz/data/msdata/cvgen.cpp:241-257 | for text whose backslashes all come before one of `! : , ( ) [ ] { }`, the escaped literal compiles back to exactly the original text when it holds no `"` and no line break, and does not compile otherwise |
| CvEscape.NoBackslashUnchanged | pwiz/data/msdata/cvgen.cpp:244-257 | escaping leaves a string without backslash unchanged; as a literal it compiles to itself when it holds no `"` and no line break, and not at all otherwise |
| CvEscape.PlainTextCompiles | pwiz/data/msdata/cvgen.cpp:339-347 | text without backslash, quote, line break or NUL, written unescaped as the synonyms and versions are, compiles to itself |
| CvEscape.NumericEscapes | pwiz/data/msdata/cvgen.cpp:339-347 | an unescaped `\101` or `\x41` compiles to `A`, `\0` to a NUL, and a bare `"` leaves no literal |
| CvEscape.UnescapedLosesBackslash | pwiz/data/msdata/cvgen.cpp:241-243 | without the escaping, `a\:b` would compile to `a:b`; with it the original survives |
| CvVersion.VersionCaptureIff | pwiz/data/msdata/cvgen.cpp:396-401 | the hand-written matcher captures `v` exactly when the line matches `.*?[^-]version: (\S+)` with group `v` |
| CvVersion.HyphenatedVersionNeverMatches | pwiz/data/msdata/cvgen.cpp:396 | a `version:` tag preceded by `-` (as in `format-version:`, `data-version:`) never matches |
| CvVersion.DateCaptureIff | pwiz/data/msdata/cvgen.cpp:406-409 | the matcher captures `d` exactly when the line matches `\s*date: (\S+).*` with group `d` |
| CvVersion.ScanVersion | pwiz/data/msdata/cvgen.cpp:393-414 | the loop with `break` computes `HeaderVersion` of the header lines |
| CvVersion.VersionLineWins | pwiz/data/msdata/cvgen.cpp:394-402 | the first version line decides the result, whatever date lines come before it |
| CvVersion.DateLineFallback | pwiz/data/msdata/cvgen.cpp:404-410 | with no version line, the first date line supplies the value |
| CvVersion.NeitherLine | pwiz/data/msdata/cvgen.cpp:413-414 | with neither kind of line the value is `unknown` |
| CvVersion.FormatVersionHeader | pwiz/data/msdata/cvgen.cpp:393-414 | the header `format-version: 1.2`, `date: 01:01:2020 00:00` yields `01:01:2020` |
| CvTables.TermMapContents | pwiz/data/msdata/cvgen.cpp:308-311 | the term map's keys are exactly the ids of the ontology's terms, each mapped to a term with that id |
| CvTables.TermMapLastWins | pwiz/data/msdata/cvgen.cpp:308-311 | a term is the map's entry for its id unless a later term repeats that id |
| CvTables.BuildTermMaps | pwiz/data/msdata/cvgen.cpp:308-311 | the nested loops build one term map per ontology |
| CvTables.PerTermMembership | pwiz/data/msdata/cvgen.cpp:289-290 | a row is in a per-term table iff some term of some ontology produced it |
| CvTables.EmitTermInfos | pwiz/data/msdata/cvgen.cpp:287-296 | the loops emit the Unknown row followed by one row per term, in ontology then term order |
| CvTables.EmitParentRows | pwiz/data/msdata/cvgen.cpp:316-318 | when every parent id resolves in the term map, looking parents up by id gives their codes |
| CvTables.EmitRelations | pwiz/data/msdata/cvgen.cpp:313-330 | the `relationsIsA_` / `relationsPartOf_` loops emit `RelationTable` |
| CvTables.EmitSynonyms | pwiz/data/msdata/cvgen.cpp:339-347 | the synonym loop emits the Unknown row, then each term's synonyms |
| CvTables.TermEnumeratorsContents | pwiz/data/msdata/cvgen.cpp:160-175 | a term declares exactly its own enumerator and, in the MS ontology only, one alias per exact synonym |
| CvTables.EnumeratorsContents | pwiz/data/msdata/cvgen.cpp:156-176 | `enum CVID` declares `CVID_Unknown` and exactly the enumerators of the input's terms |
| CvTables.EmitEnumerators | pwiz/data/msdata/cvgen.cpp:156-176 | the enumeration loops declare `CVID_Unknown`, then each term's enumerators in ontology and term order |
| CvTables.EmitOboPrefixes | pwiz/data/msdata/cvgen.cpp:422-426 | `oboPrefixes_` lists the ontology prefixes in input order |
| CvTables.EmitCvRows | pwiz/data/msdata/cvgen.cpp:389-417 | each ontology gets a `cvMap_` row with its prefix as id and its scanned version |
| CvTables.GenerateTables | pwiz/data/msdata/cvgen.cpp:287-426 | the generator's imperative loops produce exactly `GeneratedTables` |
| CvRuntime.Initialize | pwiz/data/msdata/cvgen.cpp:357-420 | the loops of `initialize` build exactly the database `Initialized` |
| CvRuntime.LoadRelationsLoop | pwiz/data/msdata/cvgen.cpp:370-374 | pushing each pair's second onto its first's list computes `LoadRelations` |
| CvRuntime.LoadTermInfosContents | pwiz/data/msdata/cvgen.cpp:359-368 | `infoMap_` has an entry for exactly the cvids of the term-info rows |
| CvRuntime.LoadTermInfosLast | pwiz/data/msdata/cvgen.cpp:359-368 | a row's record is stored unless a later row has the same cvid |
| CvRuntime.RowCvidsContents | pwiz/data/msdata/cvgen.cpp:367 | `cvids_` lists the rows' cvids in table order |
| CvRuntime.LoadRelationsAt | pwiz/data/msdata/cvgen.cpp:370-374 | after loading, a code's parent list is its old list followed by the parents of its rows in table order; nothing else changes |
| CvRuntime.LoadSynonymsAt | pwiz/data/msdata/cvgen.cpp:376-377 | after loading, a code's synonyms are its old ones followed by its rows' strings in table order |
| CvRuntime.LoadCvsAt | pwiz/data/msdata/cvgen.cpp:389-417 | the last `cvMap_` row for a prefix sets that CV's id and version |
| CvRuntime.LoadCvsKeepsNames | pwiz/data/msdata/cvgen.cpp:381-391 | CV rows set only id and version; full name and URI are unchanged |
| CvRuntime.InitializedRecord | pwiz/data/msdata/cvgen.cpp:357-378 | the loaded record of a code combines its term-info row with all its relation and synonym rows, in table order |
| CvRuntime.CvEmpty | pwiz/data/msdata/cvgen.cpp:446-449 | a CV is empty iff all four fields are empty |
| CvRuntime.CvEquals | pwiz/data/msdata/cvgen.cpp:441-444 | CV equality is field-wise equality |
| CvRuntime.Split | pwiz/data/msdata/cvgen.cpp:494-496 | `bal::split` gives one more token than separators; no token contains one, and joining the tokens restores the string |
| CvRuntime.SplitAtOnlySeparator | pwiz/data/msdata/cvgen.cpp:494-500 | a string with one `:` splits into the text before and after it |
| CvRuntime.DigitRun | pwiz/data/msdata/cvgen.cpp:482 | the longest digit prefix, where `strtoul` stops converting |
| CvRuntime.StringToCvid | pwiz/data/msdata/cvgen.cpp:477-487 | every result fits in 32 bits; a digit string within 32 bits parses to its value; above 32 bits, or when the string does not start with a digit, a space or a sign, `bad_lexical_cast` is thrown |
| CvRuntime.StringToCvidPrefix | pwiz/data/msdata/cvgen.cpp:477-487 | conversion stops at the first non-digit and returns the value of the digit prefix |
| CvRuntime.ToCvid | pwiz/data/msdata/cvgen.cpp:506 | the cast to `CVID` wraps to 32-bit signed range and is the identity below 2^31 |
| Seqs.IndexOf | pwiz/data/msdata/cvgen.cpp:502-505 | `find_if` returns the first position of the prefix, or none when it is absent |
| CvRuntime.TermInfoByIdSplitError | pwiz/data/msdata/cvgen.cpp:494-498 | `cvTermInfo(string)` throws the split error iff the id does not contain exactly one `:` |
| CvRuntime.TermInfoByIdUnknownPrefix | pwiz/data/msdata/cvgen.cpp:492-508 | a prefix whose part before any NUL is not registered yields the `CVID_Unknown` record without parsing the number |
| CvRuntime.TermInfoByIdStopsAtNul | pwiz/data/msdata/cvgen.cpp:502-503 | the prefix is compared as a C string: whatever follows a NUL in it does not change the result |
| CvRuntime.TermInfoByIdNoNumber | pwiz/data/msdata/cvgen.cpp:477-506 | a registered prefix (up to any NUL) followed by text with nothing to convert throws `bad_lexical_cast` |
| CvRuntime.AnyIsAIff | pwiz/data/msdata/cvgen.cpp:515-517 | the loop over parents returns true iff some parent is-a the target |
| CvRuntime.IsAReflexive | pwiz/data/msdata/cvgen.cpp:513 | `cvIsA(x, x)` holds |
| CvRuntime.IsAThroughParent | pwiz/data/msdata/cvgen.cpp:514-516 | a child is-a whatever any of its direct parents is-a, including that parent itself |
| CvRuntime.IsAIffPath | pwiz/data/msdata/cvgen.cpp:511-518 | `cvIsA(child, parent)` holds iff a chain of is-a parent links leads from child to parent |
| CvRuntime.IsATransitive | pwiz/data/msdata/cvgen.cpp:511-518 | is-a is transitive |
| CvRuntime.ShortName | pwiz/data/msdata/cvgen.cpp:457-464 | the result is the first shortest among the name and the synonyms, with the name winning ties |
| CvRuntime.Prefix | pwiz/data/msdata/cvgen.cpp:466-469 | the prefix is the text before the first `:`, or the whole id |
| CvRuntime.PrefixOfIdString | pwiz/data/msdata/cvgen.cpp:466-469 | `prefix()` of a generated accession is its ontology prefix |
| CvRoundTrip.CodeDeterminesTerm | pwiz/data/msdata/cvgen.cpp:118-124 | in well-formed input, equal codes mean the same term of the same ontology |
| CvRoundTrip.CollidingNamesExcluded | pwiz/data/msdata/cvgen.cpp:160-164 | two MS terms named `a b` and `a-b`, which would both declare `MS_a_b`, are not well-formed input |
| CvRoundTrip.NoTermDeclaresUnknown | pwiz/data/msdata/cvgen.cpp:156-175 | in well-formed input no term enumerator or MS alias repeats `CVID_Unknown` |
| CvRoundTrip.PrefixPosition | pwiz/data/msdata/cvgen.cpp:502-505 | with distinct prefixes, searching `oboPrefixes_` finds ontology k at position k |
| CvRoundTrip.IdStringSplits | pwiz/data/msdata/cvgen.cpp:496-500 | a generated accession splits into its prefix and its padded number, which parses back to the id |
| CvRoundTrip.TermInfoRoundTrip | pwiz/data/msdata/cvgen.cpp:489-509 | looking up a term's generated accession string returns a record whose cvid is the term's code, whose id is the accession, and whose name and definition are the term's up to their first NUL (all of them when they hold none) |
| CvRoundTrip.UnknownPrefixGivesUnknown | pwiz/data/msdata/cvgen.cpp:492-508 | in the generated library, an accession whose prefix, up to any NUL, is no ontology's yields the `CVID_Unknown` row's record |
| CvRoundTrip.GeneratedCvids | pwiz/data/msdata/cvgen.cpp:520-524 | `cvids()` starts with `CVID_Unknown` and then lists every term's code in ontology and term order |
| CvRoundTrip.GeneratedCv | pwiz/data/msdata/cvgen.cpp:451-455 | `cv(prefix)` of each ontology has that prefix as id and, as version, the scanned header version as its unescaped literal gives it (the version itself when plain); its full name and URI are those filled in for MS and UO, and empty otherwise |
| CvRoundTrip.GeneratedMsAndUo | pwiz/data/msdata/cvgen.cpp:381-385 | the MS and UO CVs carry the fixed full names and URIs |
| CvRoundTrip.OtherPrefixEmpty | pwiz/data/msdata/cvgen.cpp:446-455 | `cv` of a prefix that is neither MS, UO nor an ontology returns an empty CV |
| CvRoundTrip.ParentsRoundTrip | pwiz/data/msdata/cvgen.cpp:370-374 | when every parent id resolves, the runtime is-a / part-of list of a term is the codes of its parents, in input order |
| CvRoundTrip.SynonymsRoundTrip | pwiz/data/msdata/cvgen.cpp:339-377 | the runtime synonyms of a term are its synonyms, in order, as read back from the unescaped literals up to their first NUL; they equal the input when all are plain |
| CvRoundTrip.UnknownRecord | pwiz/data/msdata/cvgen.cpp:359-377 | the `CVID_Unknown` record has id `??:0000000`, name and definition `CVID_Unknown`, no parents and the one synonym `Unknown` |
| BlibUtils.ScoreTypeOf | pwiz_tools/BiblioSpec/src/BlibUtils.cpp:44-76 | a listed name maps to its first table position; any other string maps to the unknown score type |
| BlibUtils.StringToScoreType | pwiz_tools/BiblioSpec/src/BlibUtils.cpp:65-76 | the search loop with `break` computes `ScoreTypeOf` |
| BlibUtils.ScoreTypeNamesDistinct | pwiz_tools/BiblioSpec/src/BlibUtils.cpp:44-58 | the thirteen score-type names are pairwise distinct |
| BlibUtils.ScoreTypeRoundTrip | pwiz_tools/BiblioSpec/src/BlibUtils.cpp:65-83 | `stringToScoreType(scoreTypeToString(t)) == t` for every score type |
| BlibUtils.FindLastOf | pwiz_tools/BiblioSpec/src/BlibUtils.cpp:118-140 | `find_last_of` gives the last position holding one of the characters, or none |
| BlibUtils.GetPath | pwiz_tools/BiblioSpec/src/BlibUtils.cpp:110-124 | the result is a prefix of the input up to and including its last slash; it is empty when there is no slash |
| BlibUtils.GetPathIdempotent | pwiz_tools/BiblioSpec/src/BlibUtils.cpp:110-124 | applying `getPath` twice changes nothing |
| BlibUtils.GetFileRoot | pwiz_tools/BiblioSpec/src/BlibUtils.cpp:133-155 | the result is the file name after the last slash with its last extension removed, or the whole name when it has no dot |
| BlibUtils.HasExtension | pwiz_tools/BiblioSpec/src/BlibUtils.cpp:157-169 | given the extension is not longer than the name, the result is true iff the name ends with the extension |
| BlibUtils.ReplaceAllChar | pwiz_tools/BiblioSpec/src/BlibUtils.cpp:183-196 | with the search resumed after each write, the buffer afterwards has every `findChar` replaced and nothing else changed, no `findChar` remains when the two characters differ, and the count equals the number of occurrences |
| BlibUtils.ReplaceFirst | pwiz_tools/BiblioSpec/src/BlibUtils.cpp:189-194 | one pass of the source's loop: it exits iff no `findChar` is left, and otherwise, for distinct characters, removes exactly one occurrence |
| BlibUtils.SameCharNeverFinishes | pwiz_tools/BiblioSpec/src/BlibUtils.cpp:189-194 | with `findChar == replaceChar` present, a pass leaves the string unchanged, so the loop never exits |
| BlibUtils.DistinctCharsPasses | pwiz_tools/BiblioSpec/src/BlibUtils.cpp:185-195 | for distinct characters the loop as written makes one pass per occurrence, each finding a `findChar`, then exits with every occurrence replaced, the string `ReplaceAllChar` computes |
| BlibUtils.ExtensionStem | pwiz_tools/BiblioSpec/src/BlibUtils.cpp:202-212 | the text kept by `replaceExtension` is everything up to and including the last `.`, or the name plus `.` when there is none |
| BlibUtils.ReplaceExtension | pwiz_tools/BiblioSpec/src/BlibUtils.cpp:198-213 | the result is that stem followed by the new extension |
| BlibUtils.ReplacedHasExtension | pwiz_tools/BiblioSpec/src/BlibUtils.cpp:157-213 | after replacing the extension, `hasExtension("." + ext)` holds |
| BlibUtils.ReplaceExtensionIdempotent | pwiz_tools/BiblioSpec/src/BlibUtils.cpp:198-213 | replacing with the same dot-free extension twice equals once |
| BlibUtils.TrailingBlanksTrimmed | pwiz_tools/BiblioSpec/src/BlibUtils.cpp:243-253 | removes exactly the maximal trailing run of spaces and tabs |
| BlibUtils.TrimmedUnique | pwiz_tools/BiblioSpec/src/BlibUtils.cpp:243-253 | any prefix that ends in a non-blank and leaves only blanks after it is that result |
| BlibUtils.TrimIdempotent | pwiz_tools/BiblioSpec/src/BlibUtils.cpp:243-253 | trimming an already trimmed line changes nothing |
| BlibUtils.DeleteTrailingWhitespace | pwiz_tools/BiblioSpec/src/BlibUtils.cpp:243-253 | succeeds iff the string has a non-blank character, then yields the trimmed string; an all-blank string makes `at()` throw |
| BlibUtils.StrcpyAllCaps | pwiz_tools/BiblioSpec/src/BlibUtils.cpp:255-271 | NULL gives NULL; otherwise a fresh NUL-terminated buffer holds the upper-cased string |
| Ascii.UpperString | pwiz_tools/BiblioSpec/src/BlibUtils.cpp:266-268 | `toupper` applied character-wise keeps the length and leaves no lower-case letter |
| Ascii.UpperStringIdempotent | pwiz_tools/BiblioSpec/src/BlibUtils.cpp:266-268 | upper-casing twice gives the same string as upper-casing once |
| Cron.ValidRangesFitTables | pwiz_tools/BiblioSpec/libraries/mascot-parser/include/ms_cronoptions.hpp:86-199 | every documented index range lies inside its array |
| Cron.CronJob.constructor | pwiz_tools/BiblioSpec/libraries/mascot-parser/include/ms_cronoptions.hpp:62-63 | a new job schedules nothing and has an empty command |
| Cron.CronJob.DefaultValues | pwiz_tools/BiblioSpec/libraries/mascot-parser/include/ms_cronoptions.hpp:71-72 | resets the job to the default, in its own arrays |
| Cron.CronJob.CopyFrom | pwiz_tools/BiblioSpec/libraries/mascot-parser/include/ms_cronoptions.hpp:74-75 | the job's value becomes the other job's |
| Cron.DefaultJobSchedulesNothing | pwiz_tools/BiblioSpec/libraries/mascot-parser/include/ms_cronoptions.hpp:88-169 | in the default job every valid minute, hour, day, month and weekday is false |
| Cron.CronJob.SetMinute | pwiz_tools/BiblioSpec/libraries/mascot-parser/include/ms_cronoptions.hpp:81-99 | sets one minute; `isMinute` returns the new value and every other minute and array is unchanged |
| Cron.CronJob.SetHour | pwiz_tools/BiblioSpec/libraries/mascot-parser/include/ms_cronoptions.hpp:101-119 | sets one hour, nothing else changes |
| Cron.CronJob.SetDayOfMonth | pwiz_tools/BiblioSpec/libraries/mascot-parser/include/ms_cronoptions.hpp:121-139 | sets one day of the month, nothing else changes |
| Cron.CronJob.SetMonthOfYear | pwiz_tools/BiblioSpec/libraries/mascot-parser/include/ms_cronoptions.hpp:141-159 | sets one month, nothing else changes |
| Cron.CronJob.SetDayOfWeek | pwiz_tools/BiblioSpec/libraries/mascot-parser/include/ms_cronoptions.hpp:161-179 | sets one weekday, nothing else changes |
| Cron.CronJob.SetCommandStr | pwiz_tools/BiblioSpec/libraries/mascot-parser/include/ms_cronoptions.hpp:181-188 | takes a C string; `getCommandStr` returns what was stored; the schedule is unchanged |
| Cron.CronOptions.constructor | pwiz_tools/BiblioSpec/libraries/mascot-parser/include/ms_cronoptions.hpp:237-270 | new options: section unavailable, cron disabled, no jobs |
| Cron.CronOptions.DefaultValues | pwiz_tools/BiblioSpec/libraries/mascot-parser/include/ms_cronoptions.hpp:246-247 | resets to the same defaults |
| Cron.CronOptions.CopyFrom | pwiz_tools/BiblioSpec/libraries/mascot-parser/include/ms_cronoptions.hpp:249-250 | copies both flags and the job list |
| Cron.CronOptions.SetSectionAvailable | pwiz_tools/BiblioSpec/libraries/mascot-parser/include/ms_cronoptions.hpp:256-260 | sets the section flag, nothing else changes |
| Cron.CronOptions.SetCronEnabled | pwiz_tools/BiblioSpec/libraries/mascot-parser/include/ms_cronoptions.hpp:262-278 | `isCronEnabled` reflects the last value set, nothing else changes |
| Cron.CronOptions.ClearCronJobs | pwiz_tools/BiblioSpec/libraries/mascot-parser/include/ms_cronoptions.hpp:298-299 | the job count becomes zero; the flags are unchanged |
| Cron.CronOptions.AppendCronJob | pwiz_tools/BiblioSpec/libraries/mascot-parser/include/ms_cronoptions.hpp:280-302 | the count grows by one, the new last job equals the argument and earlier jobs are unchanged |

## Left out

- Text emission is not modelled: the copyright header, namespaces, the text of the `writeHpp` enum declaration (only its list of enumerator names, `CvTables.Enumerators`, is modelled), the file sinks and `main`'s command line and exception reporting. They are file I/O. The model states the table rows, not the bytes.
- The OBO parser (`obo.hpp`) is not part of this model. `Term` and `Obo` are input datatypes.
- `boost::regex` is not modelled in general. The two header patterns are hand-written matchers, each proved equivalent to a declarative reading of its pattern.
- The lazy `initialized_` flag and thread safety are not modelled. The database is an explicitly built value.
- `CvTables.GenerateTables` requires that every parent id resolves in its ontology (`ParentsResolve`). For a dangling parent the source dereferences a null map entry, which is undefined behaviour.
- `CvRuntime.IsAParent` requires a rank that decreases from child to parent (`Ranked`). On a cyclic is-a graph `cvIsA` does not terminate.
- Map lookups with `operator[]` insert a default entry as a side effect. `InfoAt` and `CvAt` return the same value but do not record the insertion, so later `cvids()` is unchanged, as in the source.
- `CvRoundTrip.SynonymsRoundTrip` states the synonyms as read back from the literal. `relationsExactSynonym_` is emitted without `escape_copy`, so a synonym holding a backslash escape is altered.
- `CvRoundTrip.TermInfoRoundTrip` covers well-formed input only (`WellFormed`):
  - distinct prefixes without `:`, and plain: no backslash, quote, line break or NUL;
  - prefixes made of letters, digits and `_` that do not start with a digit, so that every enumerator is an identifier;
  - no enumerator declared twice in `enum CVID` (`Distinct(Enumerators(obos))`): `toAllowableChar` can map two names to one enumerator, an MS synonym alias can repeat a term's enumerator or another alias, and a term can repeat `CVID_Unknown`; the generated header would then not compile, so `TermInfoRoundTrip`, `ParentsRoundTrip` and `SynonymsRoundTrip` say nothing about such input;
  - ids below 10^8, with codes within the 32-bit `CVID` range;
  - distinct ids within an ontology;
  - names and definitions whose backslashes all come before one of `! : , ( ) [ ] { }` (the OBO escapes `\n`, `\t`, `\W`, `\"` and `\\` are not covered) and that hold no `"` or line break, without which their literals would not compile;
  - every term's prefix is its ontology's prefix: the accession is written with the term's own prefix but looked up among the ontology prefixes, so a term with a foreign prefix comes back as `CVID_Unknown`, or as another ontology's code when that prefix is registered.
- `CvRoundTrip.CStringOf`: a literal that does not compile leaves no generated program; the model gives it the empty string, so lemmas about synonyms and versions hold in particular for input whose literals all compile.
- `CvEscape.LexChar` covers the narrow literal forms the generator can produce from text: plain characters, simple escapes, octal and hexadecimal escapes. Universal character names (`\u`, `\U`), a backslash-newline splice and trigraphs are not decoded; such a literal, and an octal or hexadecimal escape above 0xFF, gives no value. An escape C++ does not define, such as `\:`, is taken as its character, as the common compilers do.
- Characters are single bytes: a Dafny `char` stands for one C++ `char`. For text outside ASCII the source counts UTF-8 bytes (in `shortName`'s `size()`) and maps each byte through `isalnum` (so `enumName` turns `µ` into `__`), which the model, counting characters, does not reproduce.
- `CvRuntime.StringToCvid` treats `unsigned long` as 32 bits (`ULongMax`). On an LP64 platform the bound would be 2^64 − 1, and the cast to `unsigned int` would then truncate.
- `getAbsoluteFilePath` and `getExeDirectory` are left out: filesystem and operating-system calls.
- `getPeptideMass`, `compare_first_pair_doubles_descending` and `doublesDescending` are left out: floating point and `atof`.
- BlibUtils.StrcpyAllCaps: allocates |s| + 1 characters. The source allocates `strlen` characters and writes one past them, which is undefined behaviour, so the model states the intended buffer.
- BlibUtils.ScoreTypeOf: the value of `UNKNOWN_SCORE_TYPE` comes from a header that is not part of this model; it is taken as code 0.
- BlibUtils.GetFileRoot: the ensures covers inputs shorter than 2^64 characters, where a real `size_t` can index.
- `ms_cronjob`'s `getStringValue`/custom-string support and the `ms_customproperty` base class are not part of this model.
- Cron.CronJob.DefaultValues: the member bodies live in a `.cpp` that is not part of this model, and the header does not document the defaults. The defaults are inferred: nothing scheduled, empty command, cron disabled, section unavailable, no jobs.
- Cron.CronOptions.AppendCronJob: assumes `appendCronJob` stores a copy of the job, not the pointer; its body is in the same `.cpp`.

## Findings

| source | as written | input that shows it | evidently intended | confidence | as-written member | corrected member |
|---|---|---|---|---|---|---|
| pwiz_tools/BiblioSpec/src/BlibUtils.cpp:189-194 | `replaceAllChar` restarts `find_first_of(findChar)` from the beginning after every write | `replaceAllChar(s, 'a', 'a')` with `s = "a"`: each pass writes `a` over `a` and finds it again, so the call never returns | replace each occurrence once and return the count, also when the two characters are equal | not executed | BlibUtils.SameCharNeverFinishes | BlibUtils.ReplaceAllChar |
