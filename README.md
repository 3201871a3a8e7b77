# parse_to_csv, modelled in Dafny

`parse_to_csv.py` converts captured router and switch command output into
CSV tables. Each platform folder holds capture files named
`<host>_<command>.txt`. For each file, the converter:

1. splits the file's stem into a host and a command key;
2. resolves a TextFSM template for the command through the platform's
   mapping (exact match first, then the longest space-delimited prefix);
3. normalises the template's indentation;
4. runs the TextFSM engine and projects its rows into records keyed by the
   lower-cased header;
5. sets `hostname` on every record and groups the records by command key.

At the end of each folder it writes one table per command key, in sorted
key order. A table's header is `hostname` followed by every other key, in
order of first appearance.

The project models that core:

- `Identity`: the stem splitter. The regular expression's match is stated
  as a search for the first usable underscore.
- `Normalize`: the template rewriting, proved to be computed by the
  source's loop.
- `Resolve`: template resolution. The loop over the mapping's keys is
  proved to give the same answer in any iteration order. The `KeyError` of
  the final lookup is an explicit result.
- `Records`: Python's insertion-ordered `dict`, modelled as a sequence of
  pairs with `get` and item assignment. Also the projection of one engine
  row into a record.
- `Table`: `write_csv`'s column collection and the cell matrix that
  `csv.DictWriter` writes.
- `Pipeline`: the loops of `main`, with the file system, the template
  files and the TextFSM engine given as inputs.
- `Aggregate`: what the loops of `main` promise about grouping, skipping,
  aborting and emitting.
- `Strings` and `Wrappers`: the `str` operations the converter uses, and
  `Option`.

## Model

| member | source | states |
|---|---|---|
| Identity.Body | parse_to_csv.py:13 | defined as the stem without one final line feed, the text that `.` and `$` let the groups cover; characterised by `Identity.SplitHostAndCommand` |
| Identity.FirstCut | parse_to_csv.py:13 | the lazy host group ends at the first underscore that has a non-empty host before it and a non-empty command after it; no earlier position qualifies, and when none is found no position does |
| Identity.SplitHostAndCommand | parse_to_csv.py:13-19 | when the pattern matches, the host and command are non-empty and `host + "_" + command` is the stem without a final line feed; the host has no underscore after its first character; otherwise the result is `("", stem)` |
| Identity.SplitComposed | parse_to_csv.py:13-19 | inverse: a stem composed from a host without underscores (past its first character) and any command splits back into that host and command |
| Identity.SplitsAtFirstUnderscore | parse_to_csv.py:13-19 | `r1_show_version` splits as `("r1", "show_version")`, at the first underscore |
| Identity.NoCutKeepsStem | parse_to_csv.py:16-18 | a stem with no underscore strictly inside it gives an empty host and the whole stem as the command key |
| Strings.IsSpace | parse_to_csv.py:27 | defined as `str.isspace` on the ASCII range, the whitespace that `strip`, `lstrip` and `rstrip` remove; characterised by `Strings.RStrip`, `Strings.LStrip` and `Strings.StripEmptyIffAllSpace` |
| Strings.StartsWith | parse_to_csv.py:74 | defined as `str.startswith` with one prefix, Dafny's sequence-prefix order; characterised by `Normalize.PassTest` and `Resolve.QualifiesIsPrefix`, which use it for the tests of lines 27 and 74 |
| Strings.LexLess | parse_to_csv.py:142 | defined as Python's `<` on strings, code point by code point with a proper prefix first, the order `sorted` uses; characterised by `Strings.LexLessIrreflexive`, `Strings.LexLessTransitive`, `Strings.LexLessTotal` and `Pipeline.SortedKeysSpec` |
| Strings.Strip | parse_to_csv.py:27 | defined as `str.strip()` on ASCII whitespace, the left strip of the right strip; characterised by `Strings.StripEmptyIffAllSpace` |
| Strings.Lower | parse_to_csv.py:120 | defined as `str.lower()` on `A`–`Z`, character by character; characterised by `Aggregate.CliCommandSpec` |
| Strings.Replace | parse_to_csv.py:23 | defined as `str.replace`, every non-overlapping occurrence from the left replaced; characterised by `Strings.ReplaceCharAt` and `Strings.ReplaceKeeps` |
| Strings.Join | parse_to_csv.py:38 | defined as `sep.join(pieces)`; characterised by `Strings.JoinSplit` and `Strings.SplitJoin` |
| Strings.RStrip | parse_to_csv.py:38 | `rstrip()` removes exactly the whitespace tail: the result is a prefix, what it drops is whitespace, and it does not end in whitespace |
| Strings.LStrip | parse_to_csv.py:27 | `lstrip()` removes exactly the whitespace head |
| Strings.StripEmptyIffAllSpace | parse_to_csv.py:27 | `line.strip() == ""` exactly when the line is all whitespace |
| Strings.ReplaceCharAt | parse_to_csv.py:120 | replacing one character by another rewrites exactly the positions holding it and keeps the length |
| Strings.ReplaceChars | parse_to_csv.py:23 | every character after `replace` comes from the text or from the replacement |
| Strings.ReplaceKeeps | parse_to_csv.py:23 | a character in neither the pattern nor the replacement is in the result exactly when it is in the text |
| Strings.Split | parse_to_csv.py:23 | `split` on one character never returns an empty list |
| Strings.SplitPiecesNoSep | parse_to_csv.py:23 | no piece of a split contains the separator |
| Strings.JoinSplit | parse_to_csv.py:23 | joining the pieces of a split gives the text back |
| Strings.SplitJoin | parse_to_csv.py:38 | splitting a join of separator-free pieces gives the pieces back |
| Strings.SplitAt | parse_to_csv.py:23 | splitting distributes over one occurrence of the separator |
| Strings.RStripSpaceTail | parse_to_csv.py:38 | `rstrip` ignores a whitespace tail |
| Strings.RStripNonSpaceTail | parse_to_csv.py:38 | `rstrip` touches only a tail that holds some non-whitespace |
| Strings.LexLessIrreflexive | parse_to_csv.py:142 | the code-point ordering `sorted` uses is irreflexive |
| Strings.LexLessTransitive | parse_to_csv.py:142 | the ordering is transitive |
| Strings.LexLessTotal | parse_to_csv.py:142 | any two different strings are ordered one way or the other |
| Normalize.IsPassLine | parse_to_csv.py:27 | defined as the first test: a `Value ` line, a blank line or a comment; characterised by `Normalize.PassTest` and `Normalize.BlankOrCommentStrip` |
| Normalize.OpensState | parse_to_csv.py:30 | defined as the second test: a line starting with neither space, tab nor `^`; characterised by `Normalize.RewriteLineRule` and `Normalize.RuleIsNotPassOrState` |
| Normalize.IsStateLine | parse_to_csv.py:27-33 | defined as a line that fails the first test and passes the second, the only kind that sets `in_state`; characterised by `Normalize.RewriteLineRule` |
| Normalize.IsRule | parse_to_csv.py:34 | defined as a line starting with `^`; characterised by `Normalize.RewriteLineRule` and `Normalize.RuleIsNotPassOrState` |
| Normalize.Lines | parse_to_csv.py:23 | defined as the text with CR LF turned into LF, cut at every LF; characterised by `Normalize.FirstPassLines` |
| Normalize.RewriteLine | parse_to_csv.py:27-37 | defined as the line one loop pass appends: pass lines and state openers unchanged, a rule inside a state indented by two spaces, anything else unchanged; characterised by `Normalize.RewriteLineRule` |
| Normalize.NextState | parse_to_csv.py:25-33 | defined as the `in_state` flag after a line: set by a state opener, kept otherwise; characterised by `Normalize.RewriteLinesAt` |
| Normalize.RewriteLines | parse_to_csv.py:24-37 | defined as the loop unrolled over the lines with the flag threaded through; characterised by `Normalize.RewriteLinesAt` and `Normalize.RewriteAll` |
| Normalize.BlankOrCommentStrip | parse_to_csv.py:27 | the one-scan blank-or-comment test agrees with `line.strip() == "" or line.lstrip().startswith("#")` |
| Normalize.PassTest | parse_to_csv.py:27 | the first test of the loop body, written as in the source, is the pass-through predicate |
| Normalize.ClassifyLine | parse_to_csv.py:27-37 | one loop pass emits `RewriteLine` and sets the flag to `NextState`: pass-through lines keep the flag, state-name lines set it, rules inside a state gain two spaces |
| Normalize.RewriteLineRule | parse_to_csv.py:27-37 | a line is indented exactly when it is a `^` rule and the flag is set; the flag becomes set exactly at a state-name line |
| Normalize.RuleIsNotPassOrState | parse_to_csv.py:27-34 | a `^` rule line is neither a pass-through line nor a state-name line |
| Normalize.RewriteAll | parse_to_csv.py:24-37 | the loop over the lines, starting with `in_state = False`, computes `RewriteLines` |
| Normalize.RewriteLinesStep | parse_to_csv.py:26-37 | the rewrite of the remaining lines starts with that of the next line, under the flag it leaves |
| Normalize.RewriteLinesAt | parse_to_csv.py:24-37 | one output line per input line; a line becomes `"  " + line` exactly when it is a rule preceded by some state-name line; every other line is unchanged |
| Normalize.RewriteChars | parse_to_csv.py:35 | as many lines come out as go in; each is the original line or the original after two spaces, so it holds the original's characters plus possibly spaces |
| Normalize.RewriteStable | parse_to_csv.py:34-35 | the output of a pass has no rule preceded by a state-name line |
| Normalize.StableUnchanged | parse_to_csv.py:34-35 | lines of that kind pass through a second rewrite unchanged |
| Normalize.TrimLines | parse_to_csv.py:38 | the lines left after `rstrip` of the join: at least one and no more than before |
| Normalize.RStripJoin | parse_to_csv.py:38 | `rstrip` of the joined lines is the join of the trimmed lines |
| Normalize.FirstPassLines | parse_to_csv.py:23-37 | the rewritten lines hold no line feed, and no carriage return when the text had none |
| Normalize.SecondPassLines | parse_to_csv.py:23-38 | normalising again sees the trimmed lines and one empty line after the final line feed |
| Normalize.Normalized | parse_to_csv.py:38 | the result ends in one line feed, and no whitespace precedes it |
| Normalize.NormalizeTemplate | parse_to_csv.py:21-38 | `normalize_template` computes `Normalized` |
| Normalize.NormalizeIdempotent | parse_to_csv.py:21-38 | for text without carriage returns, normalising twice is normalising once |
| Normalize.AllSpaceNormalized | parse_to_csv.py:38 | an all-whitespace template becomes a lone line feed |
| Normalize.NonSpaceSurvives | parse_to_csv.py:38 | a non-whitespace character anywhere keeps the result from being a lone line feed |
| Normalize.WhitespaceOnly | parse_to_csv.py:21-38 | the result is a lone line feed exactly when the input is all whitespace |
| Resolve.CanonicalKeys | parse_to_csv.py:72-73 | defined as the set of `key.strip().lower()` over the map's keys, the candidates the loop compares; characterised by `Resolve.CanonicalKeysOfCanonicalMap`, `Resolve.SameLongest` and `Resolve.NoMatchIffNoQualifyingKey` |
| Resolve.Canonical | parse_to_csv.py:67 | defined as `strip().lower()`; characterised by `Resolve.CanonicalIdempotent` and `Resolve.CanonicalText` |
| Resolve.Qualifies | parse_to_csv.py:73-74 | defined as the test of line 74 on a key its callers have already stripped and lower-cased (`Canonical(key)`, a member of `CanonicalKeys`): the key equals the command or is followed in it by a space; characterised by `Resolve.QualifiesIsPrefix` |
| Resolve.Resolved | parse_to_csv.py:60-79 | defined as the exact entry, else the entry of the longest qualifying canonical key, a `KeyError` when that key is not stored, or no match; characterised by `Resolve.ResolveTemplate`, `Resolve.LongestKeyWins` and `Resolve.NoMatchIffNoQualifyingKey` |
| Resolve.QualifiesIsPrefix | parse_to_csv.py:74 | a qualifying key is a prefix of the command |
| Resolve.QualifyingTie | parse_to_csv.py:74-76 | two qualifying keys of the same length are equal, so the strict `>` never makes the answer depend on key order |
| Resolve.LongestQualifying | parse_to_csv.py:71-76 | the search returns a qualifying candidate at least as long as every qualifying candidate, and finds one whenever one exists |
| Resolve.ResolveTemplate | parse_to_csv.py:60-79 | the loop, visiting the keys in any order, computes `Resolved` |
| Resolve.ConsiderKey | parse_to_csv.py:73-76 | one pass keeps the best key or takes this key's canonical form, only when it qualifies; afterwards the best key is at least as long as this key's form when that qualifies, and as long as the previous best |
| Resolve.SameLongest | parse_to_csv.py:71-78 | a qualifying candidate at least as long as every qualifying key is what the search returns |
| Resolve.QualifyingKeyFound | parse_to_csv.py:72-77 | when some key qualifies, the search finds a key at least as long |
| Resolve.ExactMatchWins | parse_to_csv.py:67-69 | an exact match of the stripped, lower-cased command is returned, whatever other keys qualify |
| Resolve.NoMatchIffNoQualifyingKey | parse_to_csv.py:67-79 | the result is `None` exactly when no key, in canonical form, is the command or a space-delimited prefix of it |
| Resolve.LongestKeyWins | parse_to_csv.py:71-78 | without an exact match, the result comes from a longest qualifying key: its template when its canonical form is stored, `KeyError` otherwise |
| Resolve.ResolvedByLongest | parse_to_csv.py:71-78 | converse: any longest qualifying key decides the result that way |
| Resolve.LongestIsUnique | parse_to_csv.py:74-76 | a qualifying key at least as long as every other one is the one the search returns |
| Resolve.CanonicalMapNeverRaises | parse_to_csv.py:77-78 | when every key is stored stripped and lower-cased, the final lookup never raises |
| Resolve.CanonicalKeysOfCanonicalMap | parse_to_csv.py:73 | for such a map, the candidates are the keys themselves |
| Resolve.CanonicalIdempotent | parse_to_csv.py:67-73 | stripping and lower-casing twice is doing it once |
| Resolve.StripTrimmed | parse_to_csv.py:67 | text with no whitespace at either end is its own strip |
| Resolve.CanonicalText | parse_to_csv.py:67 | text without upper-case letters or surrounding whitespace is already canonical |
| Resolve.CanonicalCommand | parse_to_csv.py:67 | a lower-case command word and argument with no outer whitespace form a canonical command |
| ResolveExamples.PingQualifies | parse_to_csv.py:64-74 | `ping` qualifies for `ping <target>`; `show ip route` does not |
| ResolveExamples.StoredKeysCanonical | parse_to_csv.py:73 | `ping` and `show ip route` are canonical |
| ResolveExamples.PingMatchesByPrefix | parse_to_csv.py:64-65 | with keys `ping` and `show ip route`, `ping <target>` resolves to the `ping` template |
| ResolveExamples.UnrelatedCommandDoesNotMatch | parse_to_csv.py:74-79 | `traceroute <target>` resolves to nothing under `show ip route` |
| ResolveExamples.EmptyMapNoMatch | parse_to_csv.py:72-79 | an empty mapping resolves nothing |
| ResolveExamples.LoweredPing | parse_to_csv.py:73 | the canonical form of `Ping` is `ping` |
| ResolveExamples.UnnormalizedKeyRaises | parse_to_csv.py:73-78 | a key stored as `Ping` qualifies as `ping` for `ping <target>`, and the lookup `platform_map["ping"]` raises `KeyError("ping")` |
| Records.Distinct | parse_to_csv.py:51-52 | defined as the elements without repeats, each at its first occurrence, what `if k not in cols: cols.append(k)` builds; characterised by `Records.DistinctMembers`, `Records.DistinctNoDuplicates`, `Records.DistinctOfUnique` and `Records.DistinctFirstSeen` |
| Records.LoweredHeader | parse_to_csv.py:45 | defined as `headers[i].lower()` for each column; characterised by `Records.ProjectRowSpec` and `Aggregate.ParseTextSpec` |
| Records.Assign | parse_to_csv.py:45 | defined as the dict comprehension: the first `n` names assigned their cells left to right; characterised by `Records.AssignKeys`, `Records.AssignValue` and `Records.AssignAbsent` |
| Records.ProjectRow | parse_to_csv.py:45 | defined as one row projected onto the lowered header, or `None` for a row shorter than the header; characterised by `Records.ProjectRowSpec` |
| Records.DistinctMembers | parse_to_csv.py:51-52 | appending `x` only when `x not in out` keeps exactly the elements of the input |
| Records.DistinctNoDuplicates | parse_to_csv.py:51-52 | the result has no repeats |
| Records.DistinctOfUnique | parse_to_csv.py:51-52 | a sequence without repeats comes back unchanged |
| Records.DistinctFirstSeen | parse_to_csv.py:48-52 | the kept elements are in order of first occurrence |
| Records.IndexOf | parse_to_csv.py:51 | the position of an element's first occurrence |
| Records.Keys | parse_to_csv.py:50 | `r.keys()` lists the entries' keys, in insertion order |
| Records.Get | parse_to_csv.py:58 | a value that is found is stored under that key |
| Records.GetDefined | parse_to_csv.py:58 | a key is found exactly when it is one of the keys |
| Records.GetEntry | parse_to_csv.py:45 | with unique keys, every entry is what lookup finds under its key |
| Records.Put | parse_to_csv.py:139 | after `r[k] = v`, `k` holds `v` |
| Records.PutKeys | parse_to_csv.py:139 | an existing key keeps its position; a new key goes last |
| Records.PutOther | parse_to_csv.py:139 | every other key keeps its value |
| Records.PutUnique | parse_to_csv.py:139 | assignment keeps keys unique |
| Records.AssignKeys | parse_to_csv.py:45 | the comprehension's keys are the lowered names without repeats, in order of first occurrence |
| Records.AssignValue | parse_to_csv.py:45 | a key holds the cell of the last column of that name |
| Records.AssignAbsent | parse_to_csv.py:45 | no key is present that no column names |
| Records.ProjectRowSpec | parse_to_csv.py:44-45 | projection fails (`IndexError`) exactly when the row is shorter than the header; otherwise keys, values and absent keys are as `AssignKeys`, `AssignValue` and `AssignAbsent` state |
| Records.ProjectDistinctHeader | parse_to_csv.py:45 | with distinct lowered names, the record pairs every name with its column's cell, in column order |
| Records.ProjectRows | parse_to_csv.py:45 | one record per engine row, or failure exactly when some row is too short |
| Table.KeyStream | parse_to_csv.py:49-50 | defined as every key of every record, record after record, in insertion order, what the nested loop visits; characterised by `Table.KeyStreamMembers` |
| Table.Without | parse_to_csv.py:51 | defined as the keys other than `hostname`, in order; characterised by `Table.WithoutMembers` |
| Table.Columns | parse_to_csv.py:48-52 | defined as the keys other than `hostname`, each once, in order of first appearance; characterised by `Table.ColumnsExact` and `Table.ColumnsFirstSeen` |
| Table.FieldNames | parse_to_csv.py:55 | defined as `hostname` followed by the columns; characterised by `Table.FieldNamesCover` |
| Table.WriteRow | parse_to_csv.py:55-58 | defined as `DictWriter.writerow` with `extrasaction="raise"` and `restval=""`: the `ValueError` for a key that is not a field name, else one cell per field name; characterised by `Table.FieldNamesCover` and `Table.Tabulated` |
| Table.WithoutMembers | parse_to_csv.py:51 | dropping `hostname` keeps exactly the other keys |
| Table.KeyStreamMembers | parse_to_csv.py:49-50 | the nested loop visits exactly the keys of the records |
| Table.ColumnsExact | parse_to_csv.py:48-52 | a column is collected exactly when it is not `hostname` and some record has it |
| Table.ColumnsFirstSeen | parse_to_csv.py:48-52 | the columns are in order of first appearance across the records |
| Table.FieldNamesCover | parse_to_csv.py:55-58 | the header names every key of every record, so no row is rejected, and names no column twice |
| Table.Tabulated | parse_to_csv.py:55-58 | the table has the header `hostname, cols…` and one row of cells per record, each the `writerow` of that record |
| Table.CollectColumns | parse_to_csv.py:48-52 | the outer loop computes `Columns` |
| Table.AddColumns | parse_to_csv.py:50-52 | the inner loop extends the columns by one record's new non-`hostname` keys |
| Table.WriteCsv | parse_to_csv.py:47-58 | `write_csv` writes the table `Tabulated` |
| Table.HostFirstCell | parse_to_csv.py:55-58 | a record carrying its host under `hostname` has the host as its first cell |
| Table.FirstSeenExample | parse_to_csv.py:48-55 | records `{a, b}` and `{c, a}` give the header `hostname, a, b, c` |
| Pipeline.Outcomes | parse_to_csv.py:118-136 | defined as the loop body applied to each file in order; characterised by `Pipeline.ProcessFiles`, `Aggregate.OutcomeCases` and `Aggregate.CanonicalMappingNeverCrashes` |
| Pipeline.Lookup | parse_to_csv.py:140 | defined as the `defaultdict` read, a missing key giving the empty list; characterised by `Aggregate.NextLookup` and `Aggregate.AccumulateLookup` |
| Pipeline.CliCommand | parse_to_csv.py:120 | defined as the command key with `_` turned into spaces, lower-cased; characterised by `Aggregate.CliCommandSpec` |
| Pipeline.ParseText | parse_to_csv.py:40-45 | defined as the engine run on the normalised template, its rows projected onto the lowered header, `None` for any exception; characterised by `Aggregate.ParseTextSpec` |
| Pipeline.Outcome | parse_to_csv.py:119-136 | defined as what the loop body does with one file: raise, pass over, report a missing template or a failed parse, or yield records; characterised by `Aggregate.OutcomeCases` and `Pipeline.HandleFile` |
| Pipeline.WithHost | parse_to_csv.py:138-139 | defined as every record with `hostname` set to the host; characterised by `Aggregate.WithHostSpec` |
| Pipeline.AddGroup | parse_to_csv.py:140 | defined as `per_cmd[cmd_key]` extended by the records; characterised by `Aggregate.NextLookup` |
| Pipeline.Next | parse_to_csv.py:138-140 | defined as the groups after one outcome: extended for extracted records, unchanged otherwise; characterised by `Pipeline.AccumulateStep` |
| Pipeline.Accumulate | parse_to_csv.py:116-140 | defined as the file loop over the outcomes, stopping at the first `KeyError`; characterised by `Aggregate.AccumulateGroups` and `Aggregate.AbortsAtFirstCrash` |
| Pipeline.TableName | parse_to_csv.py:143 | defined as `f"{resolved_platform}_{cmd_key}.csv"`; characterised by `Aggregate.EmittedSpec` |
| Pipeline.SortedKeys | parse_to_csv.py:142 | defined as the keys of `per_cmd` in `sorted` order, least first; characterised by `Pipeline.SortedKeysSpec` |
| Pipeline.Emitted | parse_to_csv.py:142-145 | defined as one table per command key in sorted order; characterised by `Pipeline.EmittedShape` and `Aggregate.EmittedSpec` |
| Pipeline.ResolvedPlatform | parse_to_csv.py:109 | defined as `aliases.get(folder, folder)`; characterised by `Aggregate.UnmappedFolderSkipped` |
| Pipeline.PlatformMap | parse_to_csv.py:111 | defined as `mapping.get(platform, {})`; characterised by `Aggregate.UnmappedFolderSkipped` |
| Pipeline.FolderConverted | parse_to_csv.py:108-145 | defined as one folder: skipped for an empty mapping, else its tables or the `KeyError` that stopped it; characterised by `Pipeline.ConvertFolder` and `Aggregate.UnmappedFolderSkipped` |
| Pipeline.Converted | parse_to_csv.py:107-145 | defined as the folders in order, stopping at the first `KeyError` with the earlier tables written; characterised by `Pipeline.Convert` and `Aggregate.ConvertedAppend` |
| Pipeline.LeastExists | parse_to_csv.py:142 | a non-empty set of keys has a least key |
| Pipeline.LeastUnique | parse_to_csv.py:142 | the least key is unique |
| Pipeline.SortedKeysSpec | parse_to_csv.py:142 | the sorted keys are exactly the keys, each once, in strictly increasing order |
| Pipeline.SortKeys | parse_to_csv.py:142 | taking the least remaining key repeatedly gives `SortedKeys` |
| Pipeline.EmittedShape | parse_to_csv.py:142-144 | the `i`-th table is named after the `i`-th sorted key and holds that key's group |
| Pipeline.EmitTable | parse_to_csv.py:143-144 | one table, named `<platform>_<cmd_key>.csv`, is the `write_csv` table of its rows |
| Pipeline.EmitTables | parse_to_csv.py:142-145 | the emit loop writes `Emitted` |
| Pipeline.HandleFile | parse_to_csv.py:119-136 | one file's split, resolution, template check and parse computes `Outcome` |
| Pipeline.AppendRecords | parse_to_csv.py:138-140 | setting the host and appending each record extends the command's group by the host-tagged records, creating it only when there is one |
| Pipeline.AccumulateStep | parse_to_csv.py:118-140 | a file that does not raise moves the loop on with its records added |
| Pipeline.FileStep | parse_to_csv.py:118-140 | one pass of the file loop: a `KeyError` ends it, anything else continues with the next file |
| Pipeline.ProcessFiles | parse_to_csv.py:116-140 | the file loop computes `Accumulate` over the files' outcomes |
| Pipeline.ConvertFolder | parse_to_csv.py:108-145 | one platform folder computes `FolderConverted`: skipped without a mapping, aborted by a `KeyError`, or its tables |
| Pipeline.ConvertedStep | parse_to_csv.py:107 | the run is the first folder's result and, unless that raised, the rest of the run after it |
| Pipeline.RunStops | parse_to_csv.py:107-124 | a folder that raises ends the run; tables written before it stay written |
| Pipeline.RunContinues | parse_to_csv.py:107-145 | a folder that completes adds its tables to the run |
| Pipeline.Convert | parse_to_csv.py:107-145 | the platform loop computes `Converted` |
| Aggregate.CliCommandSpec | parse_to_csv.py:120 | the looked-up command is the command key with underscores as spaces and letters lower-cased, of the same length |
| Aggregate.OutcomeCases | parse_to_csv.py:119-140 | a file raises exactly when resolution raises; it is passed over exactly when nothing or an empty name resolves; its template is missing exactly when a non-empty unknown name resolves; otherwise it is reported and skipped exactly when parsing with that template fails, and when parsing succeeds its records are the parsed ones under the host and command key of its stem |
| Aggregate.ParseTextSpec | parse_to_csv.py:40-45 | parsing fails exactly when the engine raises or some row is shorter than the header; otherwise one record per row, keyed by the lowered header without repeats |
| Aggregate.WithHostEmpty | parse_to_csv.py:138-140 | a file with no records appends nothing |
| Aggregate.WithHostSpec | parse_to_csv.py:138-139 | every record gets `hostname` = host, replacing a template field of that name in place and otherwise appended last; other fields keep their values; the record count is kept |
| Aggregate.NoCrashCons | parse_to_csv.py:118-122 | no file of a list raises exactly when neither the first nor any later one does |
| Aggregate.NextLookup | parse_to_csv.py:138-140 | one file appends its contribution to its command's group and creates the group only when it contributes records |
| Aggregate.AccumulateCompletes | parse_to_csv.py:118-140 | the file loop completes exactly when no file raises |
| Aggregate.AccumulateLookup | parse_to_csv.py:116-140 | each group is the records of its command key, file after file and row after row |
| Aggregate.AccumulateMembers | parse_to_csv.py:116-140 | a group exists exactly when some record was appended to it |
| Aggregate.AccumulateGroups | parse_to_csv.py:116-140 | the file loop completes exactly when no file raises, and then every group is the ordered concatenation of its files' records and exists only when some record was appended |
| Aggregate.ContributionsCount | parse_to_csv.py:138-145 | a group's length is the sum of the record counts of its files |
| Aggregate.FolderGroups | parse_to_csv.py:116-140 | from an empty defaultdict: membership, contents and length of each group |
| Aggregate.ContributionsHosts | parse_to_csv.py:119-140 | every record of a group carries, under `hostname`, the host of a file of that command key |
| Aggregate.AddFirstRecord | parse_to_csv.py:140 | appending to a missing key creates a one-record group |
| Aggregate.AddSecondRecord | parse_to_csv.py:140 | appending to an existing key extends its group |
| Aggregate.UnmatchedThenSecond | parse_to_csv.py:123-140 | an unmatched file adds nothing and does not stop the next file |
| Aggregate.AccumulateCons | parse_to_csv.py:118-140 | one step of the file loop, by outcome |
| Aggregate.TwoHostsOneGroup | parse_to_csv.py:118-140 | two hosts' captures of one command, with an unmatched file between them, give one group with the first host's record and then the second's |
| Aggregate.AbortsAtFirstCrash | parse_to_csv.py:122 | the file loop stops at the first `KeyError`, with its key, whatever follows |
| Aggregate.SkippedChangesNothing | parse_to_csv.py:123-136 | a skipped file (no template, missing template file, parse error, no rows) can be removed anywhere without changing the result |
| Aggregate.CanonicalMappingNeverCrashes | parse_to_csv.py:119-122 | with every key stored stripped and lower-cased, no file raises |
| Aggregate.CanonicalMappingCompletes | parse_to_csv.py:116-140 | with such a mapping, every folder's file loop completes |
| Aggregate.EmittedSpec | parse_to_csv.py:142-145 | one table per group, in strictly increasing key order, named `<platform>_<cmd_key>.csv`, holding that group's records as rows under a header starting with `hostname`; the row count written is the group's length |
| Aggregate.UnmappedFolderSkipped | parse_to_csv.py:109-114 | a folder whose resolved platform has no mapping, or an empty one, writes nothing and does not stop the run |
| Aggregate.ConvertedAppend | parse_to_csv.py:107 | over two stretches of folders: a `KeyError` in the first ends the run there; otherwise the second's tables follow the first's |

## Left out

- The TextFSM engine (`parse_to_csv.py:42-44`) is a parameter of the model, `Config.engine`. It maps the normalised template text and the capture to rows of string cells, or to `EngineError` for any exception. Its own parsing, and list-valued TextFSM values, are not modelled.
- The file system is not modelled: directory listing, `glob("*.txt")`, `Path.stem`, `exists()`, `mkdir` and reading with `errors="replace"`. Folders, files, template texts and capture texts are input values.
  - Folders and their files are taken in the order given. `sorted` on paths is assumed to have produced it.
  - The existence test for a template file is membership in `Config.templates`.
- `argparse`, JSON loading, the optional config file (`parse_to_csv.py:82-101`) and the `--platform` filter (`parse_to_csv.py:104-105`) are not modelled. The mapping, the aliases and the folder list are inputs.
- `print` messages are not modelled: the skip and error lines, and `Wrote … rows`. The row count they report is the table's body length, which `Aggregate.EmittedSpec` states.
- CSV serialisation is not modelled: quoting, delimiters and line endings, and writing to `out_dir`. A table is its header and its rows of cells. When two folders alias to one platform, a later table of the same name replaces the file; the model keeps both writes in order.
- I/O errors from reading or writing files are not modelled.
- String operations are modelled on ASCII only: `isspace`, `lower` and `strip` do not cover Unicode whitespace or case mappings beyond `A`–`Z`.
- NormalizeIdempotent: requires a template without carriage returns. With them the property fails: `"a\r\r\nb"` first becomes `"a\r\nb\n"`, and normalising again gives `"a\nb\n"`.

Two behaviours of the code, stated here because they are easy to misread:

- The stem is split at the first underscore that leaves a non-empty host, because the host group `.+?` is lazy. A stem with several underscores is not split at the last one. For example, `r1_show_version` gives host `r1`. A stem whose only underscores are at its ends does not match either, and gives an empty host.
- A `KeyError` raised by `resolve_template` (`parse_to_csv.py:78`) is not inside the `try` of `parse_to_csv.py:132-136`. It ends the whole run rather than skipping one file. Tables already written stay written.
