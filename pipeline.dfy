/**
 * The conversion loop of `main`: for every platform folder, resolve its
 * alias and mapping, turn every capture file into records, group the records
 * by command key, and write one table per command key in sorted key order.
 * Files, folders, the template files and the parsing engine are inputs; the
 * result is the sequence of tables written and, when a `KeyError` escapes
 * `resolve_template`, the key that stopped the run.
 */
module Pipeline {
  import opened Wrappers
  import opened Strings
  import opened Identity
  import opened Normalize
  import opened Resolve
  import opened Records
  import opened Table

  /** A capture file: its name without `.txt`, and its text. */
  datatype CaptureFile = CaptureFile(stem: string, raw: string)

  /** A platform folder: its name and its capture files in sorted order. */
  datatype Folder = Folder(name: string, files: seq<CaptureFile>)

  /** What the TextFSM engine gives for a template text and a capture: an
      error (any exception building or running the state machine), or its
      header and rows. */
  datatype EngineResult = EngineError | Parsed(header: seq<string>, rows: seq<seq<string>>)

  /** The run's read-only inputs: the platform mapping, the folder aliases,
      the template files by name, and the parsing engine. */
  datatype Config = Config(
    mapping: map<string, map<string, string>>,
    aliases: map<string, string>,
    templates: map<string, string>,
    engine: (string, string) -> EngineResult)

  /** `cmd_key.replace("_", " ").lower()` */
  function CliCommand(cmdKey: string): string {
    Lower(Replace(cmdKey, "_", " "))
  }

  /** `parse_text`: normalise the template, run the engine and project its
      rows; `None` stands for any exception, all of which `main` catches. */
  function ParseText(engine: (string, string) -> EngineResult, templateText: string, raw: string): Option<seq<Record>> {
    match engine(Normalized(templateText), raw)
    case EngineError => None
    case Parsed(header, rows) => ProjectRows(header, rows)
  }

  /** What becomes of one capture file. */
  datatype FileOutcome =
    | Unmatched                      // no template resolves, or its name is empty
    | TemplateMissing(name: string)  // the resolved template file does not exist
    | ParseFailed                    // parsing raised
    | Crashed(key: string)           // `resolve_template` raised `KeyError`
    | Extracted(host: string, cmdKey: string, records: seq<Record>)

  /** One pass of the inner loop of `main`, up to the records to append. */
  function Outcome(cfg: Config, platformMap: map<string, string>, file: CaptureFile): FileOutcome {
    var identity := SplitHostAndCommand(file.stem);
    match Resolved(platformMap, CliCommand(identity.1))
    case NoMatch => Unmatched
    case MissingKey(k) => Crashed(k)
    case Found(name) =>
      if name == "" then Unmatched
      else if name !in cfg.templates then TemplateMissing(name)
      else
        match ParseText(cfg.engine, cfg.templates[name], file.raw)
        case None => ParseFailed
        case Some(records) => Extracted(identity.0, identity.1, records)
  }

  function Outcomes(cfg: Config, platformMap: map<string, string>, files: seq<CaptureFile>): seq<FileOutcome> {
    seq(|files|, i requires 0 <= i < |files| => Outcome(cfg, platformMap, files[i]))
  }

  /** `r["hostname"] = host` on every record. */
  function WithHost(records: seq<Record>, host: string): seq<Record> {
    seq(|records|, i requires 0 <= i < |records| => Put(records[i], HostColumn, host))
  }

  /** `per_cmd[k]`, where a missing key reads as the empty list. */
  function Lookup(groups: map<string, seq<Record>>, k: string): seq<Record> {
    if k in groups then groups[k] else []
  }

  /** Appending `records` to `per_cmd[cmdKey]` one by one: the defaultdict
      gains a key only once a record is appended under it. */
  function AddGroup(groups: map<string, seq<Record>>, cmdKey: string, records: seq<Record>): map<string, seq<Record>> {
    if records == [] then groups else groups[cmdKey := Lookup(groups, cmdKey) + records]
  }

  /** The file loop ends with the groups, or stops at a `KeyError`. */
  datatype FolderResult = Aborted(key: string) | Completed(groups: map<string, seq<Record>>)

  /** The file loop from `groups` on, over the remaining outcomes. */
  function Accumulate(groups: map<string, seq<Record>>, outcomes: seq<FileOutcome>): FolderResult
    decreases |outcomes|
  {
    if outcomes == [] then Completed(groups)
    else
      match outcomes[0]
      case Crashed(k) => Aborted(k)
      case Extracted(host, cmdKey, records) =>
        Accumulate(AddGroup(groups, cmdKey, WithHost(records, host)), outcomes[1..])
      case _ => Accumulate(groups, outcomes[1..])
  }

  /** The groups after one outcome that did not crash. */
  function Next(groups: map<string, seq<Record>>, o: FileOutcome): map<string, seq<Record>> {
    if o.Extracted? then AddGroup(groups, o.cmdKey, WithHost(o.records, o.host)) else groups
  }

  lemma AccumulateStep(groups: map<string, seq<Record>>, outcomes: seq<FileOutcome>)
    requires outcomes != [] && !outcomes[0].Crashed?
    ensures Accumulate(groups, outcomes) == Accumulate(Next(groups, outcomes[0]), outcomes[1..])
  {
  }

  /** One output file: its name and the table written to it. */
  datatype Write = Write(name: string, table: Csv)

  /** `f"{resolved_platform}_{cmd_key}.csv"` */
  function TableName(platform: string, cmdKey: string): string {
    platform + "_" + cmdKey + ".csv"
  }

  /** `k` is the smallest element of `s` in code-point order. */
  predicate IsLeast(k: string, s: set<string>) {
    k in s && forall other :: other in s && other != k ==> LexLess(k, other)
  }

  lemma {:induction false} LeastExists(s: set<string>)
    requires s != {}
    ensures exists k :: IsLeast(k, s)
    decreases s
  {
    var x :| x in s;
    if s != {x} {
      LeastExists(s - {x});
      var m :| IsLeast(m, s - {x});
      LexLessTotal(x, m);
      if LexLess(x, m) {
        forall other | other in s && other != x ensures LexLess(x, other) {
          if other != m {
            LexLessTransitive(x, m, other);
          }
        }
        assert IsLeast(x, s);
      } else {
        assert IsLeast(m, s);
      }
    } else {
      assert IsLeast(x, s);
    }
  }

  lemma LeastUnique(a: string, b: string, s: set<string>)
    requires IsLeast(a, s) && IsLeast(b, s)
    ensures a == b
  {
    if a != b {
      LexLessTransitive(a, b, a);
      LexLessIrreflexive(a);
    }
  }

  /** `sorted` applied to a set of distinct strings. */
  ghost function SortedKeys(s: set<string>): seq<string>
    decreases s
  {
    if s == {} then []
    else
      LeastExists(s);
      var k :| IsLeast(k, s);
      [k] + SortedKeys(s - {k})
  }

  /** The head of the sorted keys is the least key, whichever way it is
      found. */
  lemma SortedKeysLeast(s: set<string>, k: string)
    requires IsLeast(k, s)
    ensures SortedKeys(s) == [k] + SortedKeys(s - {k})
  {
    LeastExists(s);
    var m :| IsLeast(m, s) && SortedKeys(s) == [m] + SortedKeys(s - {m});
    LeastUnique(k, m, s);
  }

  lemma {:induction false} SortedKeysLength(s: set<string>)
    ensures |SortedKeys(s)| == |s|
    decreases s
  {
    if s != {} {
      LeastExists(s);
      var k :| IsLeast(k, s);
      SortedKeysLeast(s, k);
      SortedKeysLength(s - {k});
    }
  }

  lemma {:induction false} SortedKeysMembers(s: set<string>)
    ensures forall x :: x in SortedKeys(s) <==> x in s
    decreases s
  {
    if s != {} {
      LeastExists(s);
      var k :| IsLeast(k, s);
      SortedKeysLeast(s, k);
      SortedKeysMembers(s - {k});
    }
  }

  lemma {:induction false} SortedKeysIncreasing(s: set<string>)
    ensures forall i, j :: 0 <= i < j < |SortedKeys(s)| ==> LexLess(SortedKeys(s)[i], SortedKeys(s)[j])
    decreases s
  {
    if s != {} {
      LeastExists(s);
      var k :| IsLeast(k, s);
      SortedKeysLeast(s, k);
      var rest := SortedKeys(s - {k});
      SortedKeysIncreasing(s - {k});
      SortedKeysMembers(s - {k});
      var keys := SortedKeys(s);
      forall i, j | 0 <= i < j < |keys|
        ensures LexLess(keys[i], keys[j])
      {
        assert keys[j] == rest[j - 1] && rest[j - 1] in s - {k};
        if i > 0 {
          assert keys[i] == rest[i - 1];
        }
      }
    }
  }

  /** The sorted keys are exactly the elements of the set, each once, in
      strictly increasing order. */
  lemma SortedKeysSpec(s: set<string>)
    ensures |SortedKeys(s)| == |s|
    ensures forall i :: 0 <= i < |SortedKeys(s)| ==> SortedKeys(s)[i] in s
    ensures forall k :: k in s ==> k in SortedKeys(s)
    ensures forall i, j :: 0 <= i < j < |SortedKeys(s)| ==> LexLess(SortedKeys(s)[i], SortedKeys(s)[j])
  {
    SortedKeysLength(s);
    SortedKeysMembers(s);
    SortedKeysIncreasing(s);
  }

  /** `sorted(per_cmd.items())`: repeatedly take the least remaining key. */
  method SortKeys(s: set<string>) returns (keys: seq<string>)
    ensures keys == SortedKeys(s)
  {
    keys := [];
    var remaining := s;
    while remaining != {}
      invariant keys + SortedKeys(remaining) == SortedKeys(s)
      decreases remaining
    {
      LeastExists(remaining);
      var k :| IsLeast(k, remaining);
      SortedKeysLeast(remaining, k);
      keys := keys + [k];
      remaining := remaining - {k};
    }
  }

  /** The tables of one platform: one per command key, in sorted key order,
      each named after its platform and key. */
  ghost function Emitted(platform: string, groups: map<string, seq<Record>>): seq<Write> {
    var keys := SortedKeys(groups.Keys);
    SortedKeysSpec(groups.Keys);
    seq(|keys|, i requires 0 <= i < |keys| => Write(TableName(platform, keys[i]), Tabulated(groups[keys[i]])))
  }

  /** The `i`-th table is that of the `i`-th key in sorted order. */
  lemma EmittedShape(platform: string, groups: map<string, seq<Record>>)
    ensures |Emitted(platform, groups)| == |SortedKeys(groups.Keys)|
    ensures forall i :: 0 <= i < |SortedKeys(groups.Keys)| ==>
      var k := SortedKeys(groups.Keys)[i];
      k in groups && Emitted(platform, groups)[i] == Write(TableName(platform, k), Tabulated(groups[k]))
  {
    SortedKeysSpec(groups.Keys);
  }

  /** The emit loop of `main`. */
  method EmitTables(platform: string, groups: map<string, seq<Record>>) returns (writes: seq<Write>)
    ensures writes == Emitted(platform, groups)
  {
    var keys := SortKeys(groups.Keys);
    ghost var emitted := Emitted(platform, groups);
    EmittedShape(platform, groups);
    writes := [];
    for i := 0 to |keys|
      invariant |writes| == i
      invariant forall q :: 0 <= q < i ==> writes[q] == emitted[q]
    {
      var w := EmitTable(platform, keys[i], groups[keys[i]]);
      writes := writes + [w];
    }
  }

  /** One pass of the emit loop: the table of one command key. */
  method EmitTable(platform: string, cmdKey: string, rows: seq<Record>) returns (w: Write)
    ensures w == Write(TableName(platform, cmdKey), Tabulated(rows))
  {
    var t := WriteCsv(rows);
    w := Write(TableName(platform, cmdKey), t);
  }

  /** `aliases.get(folder, folder)` */
  function ResolvedPlatform(aliases: map<string, string>, folder: string): string {
    if folder in aliases then aliases[folder] else folder
  }

  /** `mapping.get(platform, {})` */
  function PlatformMap(mapping: map<string, map<string, string>>, platform: string): map<string, string> {
    if platform in mapping then mapping[platform] else map[]
  }

  /** The tables written so far, and the key of a `KeyError` that ended the
      run, if one did. */
  datatype RunResult = RunResult(writes: seq<Write>, crash: Option<string>)

  /** One platform folder: skipped when its mapping is empty; otherwise its
      tables, or the `KeyError` that stopped it before it wrote any. */
  ghost function FolderConverted(cfg: Config, folder: Folder): RunResult {
    var platform := ResolvedPlatform(cfg.aliases, folder.name);
    var platformMap := PlatformMap(cfg.mapping, platform);
    if platformMap == map[] then RunResult([], None)
    else
      match Accumulate(map[], Outcomes(cfg, platformMap, folder.files))
      case Aborted(k) => RunResult([], Some(k))
      case Completed(groups) => RunResult(Emitted(platform, groups), None)
  }

  /** The whole run over the folders in sorted order; a `KeyError` ends it,
      and the tables already written stay written. */
  ghost function Converted(cfg: Config, folders: seq<Folder>): RunResult
    decreases |folders|
  {
    if folders == [] then RunResult([], None)
    else
      var first := FolderConverted(cfg, folders[0]);
      if first.crash.Some? then first
      else
        var rest := Converted(cfg, folders[1..]);
        RunResult(first.writes + rest.writes, rest.crash)
  }

  /** One pass of the file loop up to the records to append: split the stem,
      resolve the template, read and parse. */
  method HandleFile(cfg: Config, platformMap: map<string, string>, file: CaptureFile) returns (o: FileOutcome)
    ensures o == Outcome(cfg, platformMap, file)
  {
    var identity := SplitHostAndCommand(file.stem);
    var host, cmdKey := identity.0, identity.1;
    var cliCmd := CliCommand(cmdKey);
    var resolution := ResolveTemplate(platformMap, cliCmd);
    match resolution
    case NoMatch =>
      return Unmatched;
    case MissingKey(k) =>
      return Crashed(k);
    case Found(name) =>
      if name == "" {
        return Unmatched;
      }
      if name !in cfg.templates {
        return TemplateMissing(name);
      }
      var text := NormalizeTemplate(cfg.templates[name]);
      var parsed := cfg.engine(text, file.raw);
      match parsed
      case EngineError =>
        return ParseFailed;
      case Parsed(header, rows) =>
        var records := ProjectRows(header, rows);
        if records.None? {
          return ParseFailed;
        }
        return Extracted(host, cmdKey, records.value);
  }

  lemma AddGroupSnoc(groups: map<string, seq<Record>>, cmdKey: string, records: seq<Record>, r: Record)
    ensures var g := AddGroup(groups, cmdKey, records);
      AddGroup(groups, cmdKey, records + [r]) == g[cmdKey := Lookup(g, cmdKey) + [r]]
  {
    var g := AddGroup(groups, cmdKey, records);
    if records == [] {
      assert records + [r] == [r];
    } else {
      assert Lookup(g, cmdKey) == Lookup(groups, cmdKey) + records;
      AppendAssoc(Lookup(groups, cmdKey), records, [r]);
    }
  }

  lemma WithHostSnoc(records: seq<Record>, j: nat, host: string)
    requires j < |records|
    ensures WithHost(records[..j + 1], host) == WithHost(records[..j], host) + [Put(records[j], HostColumn, host)]
  {
  }

  /** `for r in records: r["hostname"] = host; per_cmd[cmd_key].append(r)` */
  method AppendRecords(perCmd: map<string, seq<Record>>, cmdKey: string, host: string, records: seq<Record>)
    returns (groups: map<string, seq<Record>>)
    ensures groups == AddGroup(perCmd, cmdKey, WithHost(records, host))
  {
    groups := perCmd;
    for j := 0 to |records|
      invariant groups == AddGroup(perCmd, cmdKey, WithHost(records[..j], host))
    {
      var r := Put(records[j], HostColumn, host);
      var group := Lookup(groups, cmdKey);
      AddGroupSnoc(perCmd, cmdKey, WithHost(records[..j], host), r);
      WithHostSnoc(records, j, host);
      groups := groups[cmdKey := group + [r]];
    }
    assert records[..|records|] == records;
  }

  /** One pass of the file loop: a crash ends it, any other outcome moves
      on to the next file with its records added. */
  lemma FileStep(outcomes: seq<FileOutcome>, i: nat, groups: map<string, seq<Record>>)
    requires i < |outcomes|
    ensures Accumulate(groups, outcomes[i..]) ==
      if outcomes[i].Crashed? then Aborted(outcomes[i].key) else Accumulate(Next(groups, outcomes[i]), outcomes[i + 1..])
  {
    assert outcomes[i..][0] == outcomes[i] && outcomes[i..][1..] == outcomes[i + 1..];
  }

  /** The file loop of one platform folder. */
  method ProcessFiles(cfg: Config, platformMap: map<string, string>, files: seq<CaptureFile>) returns (r: FolderResult)
    ensures r == Accumulate(map[], Outcomes(cfg, platformMap, files))
  {
    var perCmd: map<string, seq<Record>> := map[];
    ghost var outcomes := Outcomes(cfg, platformMap, files);
    for i := 0 to |files|
      invariant Accumulate(perCmd, outcomes[i..]) == Accumulate(map[], outcomes)
    {
      var o := HandleFile(cfg, platformMap, files[i]);
      assert o == outcomes[i];
      FileStep(outcomes, i, perCmd);
      match o
      case Crashed(k) =>
        return Aborted(k);
      case Extracted(host, cmdKey, records) =>
        perCmd := AppendRecords(perCmd, cmdKey, host, records);
      case Unmatched =>
      case TemplateMissing(_) =>
      case ParseFailed =>
    }
    return Completed(perCmd);
  }

  /** One pass of the platform loop of `main`. */
  method ConvertFolder(cfg: Config, folder: Folder) returns (r: RunResult)
    ensures r == FolderConverted(cfg, folder)
  {
    var platform := ResolvedPlatform(cfg.aliases, folder.name);
    var platformMap := PlatformMap(cfg.mapping, platform);
    if platformMap == map[] {
      return RunResult([], None);
    }
    var result := ProcessFiles(cfg, platformMap, folder.files);
    match result
    case Aborted(k) =>
      return RunResult([], Some(k));
    case Completed(groups) =>
      var writes := EmitTables(platform, groups);
      return RunResult(writes, None);
  }

  /** The run over `folders` is the first folder's result and, unless that
      crashed, the rest of the run after it. */
  lemma ConvertedStep(cfg: Config, folders: seq<Folder>, i: nat)
    requires i < |folders|
    ensures var first := FolderConverted(cfg, folders[i]);
      var rest := Converted(cfg, folders[i + 1..]);
      Converted(cfg, folders[i..]) ==
        if first.crash.Some? then first else RunResult(first.writes + rest.writes, rest.crash)
  {
    assert folders[i..][0] == folders[i] && folders[i..][1..] == folders[i + 1..];
  }

  /** The run so far is `writes`, and the rest of the run follows it. */
  ghost predicate RunSoFar(cfg: Config, folders: seq<Folder>, i: nat, writes: seq<Write>)
    requires i <= |folders|
  {
    Converted(cfg, folders) == RunResult(writes + Converted(cfg, folders[i..]).writes, Converted(cfg, folders[i..]).crash)
  }

  /** A folder that crashes ends the run with what was written before it. */
  lemma RunStops(cfg: Config, folders: seq<Folder>, i: nat, writes: seq<Write>)
    requires i < |folders| && RunSoFar(cfg, folders, i, writes)
    requires FolderConverted(cfg, folders[i]).crash.Some?
    ensures Converted(cfg, folders) ==
      RunResult(writes + FolderConverted(cfg, folders[i]).writes, FolderConverted(cfg, folders[i]).crash)
  {
    ConvertedStep(cfg, folders, i);
  }

  /** A folder that completes adds its tables to the run so far. */
  lemma RunContinues(cfg: Config, folders: seq<Folder>, i: nat, writes: seq<Write>)
    requires i < |folders| && RunSoFar(cfg, folders, i, writes)
    requires FolderConverted(cfg, folders[i]).crash.None?
    ensures RunSoFar(cfg, folders, i + 1, writes + FolderConverted(cfg, folders[i]).writes)
  {
    ConvertedStep(cfg, folders, i);
    AppendAssoc(writes, FolderConverted(cfg, folders[i]).writes, Converted(cfg, folders[i + 1..]).writes);
  }

  /** The platform loop of `main`. */
  method Convert(cfg: Config, folders: seq<Folder>) returns (r: RunResult)
    ensures r == Converted(cfg, folders)
  {
    var writes: seq<Write> := [];
    assert folders[0..] == folders;
    for i := 0 to |folders|
      invariant RunSoFar(cfg, folders, i, writes)
    {
      var step := ConvertFolder(cfg, folders[i]);
      if step.crash.Some? {
        RunStops(cfg, folders, i, writes);
        return RunResult(writes + step.writes, step.crash);
      }
      RunContinues(cfg, folders, i, writes);
      writes := writes + step.writes;
    }
    assert folders[|folders|..] == [];
    assert writes + [] == writes;
    return RunResult(writes, None);
  }
}
