/**
 * What the conversion loop promises about its groups and its tables: each
 * group is the records of its command key, file after file and row after
 * row; a file that fails adds nothing and stops nothing; a `KeyError` stops
 * the folder; every record carries its host; and each platform gets one
 * table per command key, in sorted key order.
 */
module Aggregate {
  import opened Wrappers
  import opened Strings
  import opened Identity
  import opened Normalize
  import opened Resolve
  import opened Records
  import opened Table
  import opened Pipeline

  /** The records one outcome appends to the group of `cmdKey`, with their
      host set. */
  function Contribution(o: FileOutcome, cmdKey: string): seq<Record> {
    if o.Extracted? && o.cmdKey == cmdKey then WithHost(o.records, o.host) else []
  }

  /** The records all outcomes append to the group of `cmdKey`, in order. */
  function Contributions(outcomes: seq<FileOutcome>, cmdKey: string): seq<Record>
    decreases |outcomes|
  {
    if outcomes == [] then [] else Contribution(outcomes[0], cmdKey) + Contributions(outcomes[1..], cmdKey)
  }

  /** The number of records the outcomes extracted under `cmdKey`. */
  function RecordCount(outcomes: seq<FileOutcome>, cmdKey: string): nat
    decreases |outcomes|
  {
    if outcomes == [] then 0
    else
      (if outcomes[0].Extracted? && outcomes[0].cmdKey == cmdKey then |outcomes[0].records| else 0)
        + RecordCount(outcomes[1..], cmdKey)
  }

  predicate NoCrash(outcomes: seq<FileOutcome>) {
    forall i :: 0 <= i < |outcomes| ==> !outcomes[i].Crashed?
  }

  /** An outcome that leaves the groups as they are and does not stop the
      loop: no template, a missing template file, a parse error, or a parse
      that gave no rows. */
  predicate Skipped(o: FileOutcome) {
    o.Unmatched? || o.TemplateMissing? || o.ParseFailed? || (o.Extracted? && o.records == [])
  }

  lemma WithHostEmpty(records: seq<Record>, host: string)
    ensures WithHost(records, host) == [] <==> records == []
  {
    if records != [] {
      assert |WithHost(records, host)| == |records|;
    }
  }

  /** Setting the host: every record gets `hostname` equal to the host,
      replacing any template field of that name in place; its other fields
      and their order are kept; the number of records is kept. */
  lemma WithHostSpec(records: seq<Record>, host: string)
    ensures |WithHost(records, host)| == |records|
    ensures forall i :: 0 <= i < |records| ==> Get(WithHost(records, host)[i], HostColumn) == Some(host)
    ensures forall i, k :: 0 <= i < |records| && k != HostColumn ==>
      Get(WithHost(records, host)[i], k) == Get(records[i], k)
    ensures forall i :: 0 <= i < |records| ==>
      Keys(WithHost(records, host)[i]) == (if HostColumn in Keys(records[i]) then Keys(records[i]) else Keys(records[i]) + [HostColumn])
  {
    forall i, k | 0 <= i < |records| && k != HostColumn
      ensures Get(WithHost(records, host)[i], k) == Get(records[i], k)
    {
      PutOther(records[i], HostColumn, host, k);
    }
    forall i | 0 <= i < |records|
      ensures Keys(WithHost(records, host)[i]) == (if HostColumn in Keys(records[i]) then Keys(records[i]) else Keys(records[i]) + [HostColumn])
    {
      PutKeys(records[i], HostColumn, host);
    }
  }

  lemma ContributionsCons(outcomes: seq<FileOutcome>, cmdKey: string)
    requires outcomes != []
    ensures Contributions(outcomes, cmdKey) == Contribution(outcomes[0], cmdKey) + Contributions(outcomes[1..], cmdKey)
  {
  }

  lemma NoCrashCons(outcomes: seq<FileOutcome>)
    requires outcomes != []
    ensures NoCrash(outcomes) <==> !outcomes[0].Crashed? && NoCrash(outcomes[1..])
  {
    var rest := outcomes[1..];
    if !outcomes[0].Crashed? && NoCrash(rest) {
      forall i | 0 <= i < |outcomes| ensures !outcomes[i].Crashed? {
        if i > 0 {
          assert outcomes[i] == rest[i - 1];
        }
      }
    }
    if NoCrash(outcomes) {
      forall i | 0 <= i < |rest| ensures !rest[i].Crashed? {
        assert rest[i] == outcomes[i + 1];
      }
    }
  }

  /** One outcome adds its contribution to each group, and creates a group
      only when it contributes something. */
  lemma NextLookup(groups: map<string, seq<Record>>, o: FileOutcome, cmdKey: string)
    ensures Lookup(Next(groups, o), cmdKey) == Lookup(groups, cmdKey) + Contribution(o, cmdKey)
    ensures cmdKey in Next(groups, o) <==> cmdKey in groups || Contribution(o, cmdKey) != []
  {
    if o.Extracted? {
      WithHostEmpty(o.records, o.host);
    }
  }

  /** The file loop completes exactly when no file crashed. */
  lemma {:induction false} AccumulateCompletes(groups: map<string, seq<Record>>, outcomes: seq<FileOutcome>)
    ensures Accumulate(groups, outcomes).Completed? <==> NoCrash(outcomes)
    decreases |outcomes|
  {
    if outcomes != [] {
      NoCrashCons(outcomes);
      if !outcomes[0].Crashed? {
        AccumulateStep(groups, outcomes);
        AccumulateCompletes(Next(groups, outcomes[0]), outcomes[1..]);
      }
    }
  }

  /** The file loop adds to a group the contributions of the outcomes, in
      order. */
  lemma {:induction false} AccumulateLookup(groups: map<string, seq<Record>>, outcomes: seq<FileOutcome>, cmdKey: string)
    requires Accumulate(groups, outcomes).Completed?
    ensures Lookup(Accumulate(groups, outcomes).groups, cmdKey) == Lookup(groups, cmdKey) + Contributions(outcomes, cmdKey)
    decreases |outcomes|
  {
    if outcomes != [] {
      var o := outcomes[0];
      var rest := outcomes[1..];
      var next := Next(groups, o);
      AccumulateStep(groups, outcomes);
      AccumulateLookup(next, rest, cmdKey);
      NextLookup(groups, o, cmdKey);
      ContributionsCons(outcomes, cmdKey);
      AppendAssoc(Lookup(groups, cmdKey), Contribution(o, cmdKey), Contributions(rest, cmdKey));
    }
  }

  /** The file loop creates a group only when something is appended to it. */
  lemma {:induction false} AccumulateMembers(groups: map<string, seq<Record>>, outcomes: seq<FileOutcome>, cmdKey: string)
    requires Accumulate(groups, outcomes).Completed?
    ensures cmdKey in Accumulate(groups, outcomes).groups <==> cmdKey in groups || Contributions(outcomes, cmdKey) != []
    decreases |outcomes|
  {
    if outcomes != [] {
      var o := outcomes[0];
      var rest := outcomes[1..];
      var next := Next(groups, o);
      AccumulateStep(groups, outcomes);
      AccumulateMembers(next, rest, cmdKey);
      NextLookup(groups, o, cmdKey);
      assert Contributions(outcomes, cmdKey) == Contribution(o, cmdKey) + Contributions(rest, cmdKey);
    }
  }

  /** The file loop, from any groups on: it completes exactly when no file
      crashed, and then adds to every group the contributions of the
      outcomes, in order; a group appears only when something was appended
      to it. */
  lemma AccumulateGroups(groups: map<string, seq<Record>>, outcomes: seq<FileOutcome>)
    ensures Accumulate(groups, outcomes).Completed? <==> NoCrash(outcomes)
    ensures Accumulate(groups, outcomes).Completed? ==>
      forall cmdKey :: Lookup(Accumulate(groups, outcomes).groups, cmdKey) == Lookup(groups, cmdKey) + Contributions(outcomes, cmdKey)
    ensures Accumulate(groups, outcomes).Completed? ==>
      forall cmdKey :: cmdKey in Accumulate(groups, outcomes).groups <==> cmdKey in groups || Contributions(outcomes, cmdKey) != []
  {
    AccumulateCompletes(groups, outcomes);
    if NoCrash(outcomes) {
      forall cmdKey ensures Lookup(Accumulate(groups, outcomes).groups, cmdKey) == Lookup(groups, cmdKey) + Contributions(outcomes, cmdKey) {
        AccumulateLookup(groups, outcomes, cmdKey);
      }
      forall cmdKey ensures cmdKey in Accumulate(groups, outcomes).groups <==> cmdKey in groups || Contributions(outcomes, cmdKey) != [] {
        AccumulateMembers(groups, outcomes, cmdKey);
      }
    }
  }

  /** The number of records in a group is the sum of the record counts of
      the files of its command key. */
  lemma {:induction false} ContributionsCount(outcomes: seq<FileOutcome>, cmdKey: string)
    ensures |Contributions(outcomes, cmdKey)| == RecordCount(outcomes, cmdKey)
    decreases |outcomes|
  {
    if outcomes != [] {
      ContributionsCount(outcomes[1..], cmdKey);
    }
  }

  /** The groups of a folder whose files all completed: each group holds
      exactly the records of its command key, file after file, row after
      row, and as many of them as those files extracted. */
  lemma FolderGroups(outcomes: seq<FileOutcome>, cmdKey: string)
    requires NoCrash(outcomes)
    ensures Accumulate(map[], outcomes).Completed?
    ensures var groups := Accumulate(map[], outcomes).groups;
      (cmdKey in groups <==> Contributions(outcomes, cmdKey) != [])
      && Lookup(groups, cmdKey) == Contributions(outcomes, cmdKey)
      && |Lookup(groups, cmdKey)| == RecordCount(outcomes, cmdKey)
  {
    AccumulateGroups(map[], outcomes);
    ContributionsCount(outcomes, cmdKey);
  }

  /** Every record of a group carries, under `hostname`, the host of the file
      it came from, and that file was one of the group's command key. */
  lemma {:induction false} ContributionsHosts(outcomes: seq<FileOutcome>, cmdKey: string)
    ensures forall r :: r in Contributions(outcomes, cmdKey) ==>
      exists i :: 0 <= i < |outcomes| && outcomes[i].Extracted? && outcomes[i].cmdKey == cmdKey
        && Get(r, HostColumn) == Some(outcomes[i].host)
    decreases |outcomes|
  {
    if outcomes != [] {
      var o := outcomes[0];
      var rest := outcomes[1..];
      ContributionsHosts(rest, cmdKey);
      forall r | r in Contributions(outcomes, cmdKey)
        ensures exists i :: 0 <= i < |outcomes| && outcomes[i].Extracted? && outcomes[i].cmdKey == cmdKey
                              && Get(r, HostColumn) == Some(outcomes[i].host)
      {
        if r in Contribution(o, cmdKey) {
          WithHostSpec(o.records, o.host);
          var j :| 0 <= j < |o.records| && WithHost(o.records, o.host)[j] == r;
          assert outcomes[0] == o;
        } else {
          var i :| 0 <= i < |rest| && rest[i].Extracted? && rest[i].cmdKey == cmdKey
            && Get(r, HostColumn) == Some(rest[i].host);
          assert outcomes[i + 1] == rest[i];
        }
      }
    }
  }

  lemma AddFirstRecord(cmdKey: string, host: string, r: Record)
    ensures AddGroup(map[], cmdKey, WithHost([r], host)) == map[cmdKey := [Put(r, HostColumn, host)]]
  {
    assert WithHost([r], host) == [Put(r, HostColumn, host)];
    assert Lookup(map[], cmdKey) + [Put(r, HostColumn, host)] == [Put(r, HostColumn, host)];
  }

  lemma AddSecondRecord(cmdKey: string, first: Record, host: string, r: Record)
    ensures AddGroup(map[cmdKey := [first]], cmdKey, WithHost([r], host)) == map[cmdKey := [first, Put(r, HostColumn, host)]]
  {
    assert WithHost([r], host) == [Put(r, HostColumn, host)];
    assert Lookup(map[cmdKey := [first]], cmdKey) + [Put(r, HostColumn, host)] == [first, Put(r, HostColumn, host)];
  }

  /** Two routers' captures of the same command, with an unmatched file
      between them, give one group holding the first router's record and
      then the second's, each tagged with its host. */
  lemma TwoHostsOneGroup(host1: string, host2: string, cmdKey: string, r1: Record, r2: Record)
    ensures Accumulate(map[], [Extracted(host1, cmdKey, [r1]), Unmatched, Extracted(host2, cmdKey, [r2])])
      == Completed(map[cmdKey := [Put(r1, HostColumn, host1), Put(r2, HostColumn, host2)]])
  {
    var o1 := Extracted(host1, cmdKey, [r1]);
    var tail := [Unmatched, Extracted(host2, cmdKey, [r2])];
    AddFirstRecord(cmdKey, host1, r1);
    UnmatchedThenSecond(map[cmdKey := [Put(r1, HostColumn, host1)]], cmdKey, host2, r2);
    AddSecondRecord(cmdKey, Put(r1, HostColumn, host1), host2, r2);
    AccumulateCons(map[], o1, tail);
    assert [o1, Unmatched, Extracted(host2, cmdKey, [r2])] == [o1] + tail;
  }

  lemma UnmatchedThenSecond(groups: map<string, seq<Record>>, cmdKey: string, host: string, r: Record)
    ensures Accumulate(groups, [Unmatched, Extracted(host, cmdKey, [r])]) == Completed(AddGroup(groups, cmdKey, WithHost([r], host)))
  {
    var o := Extracted(host, cmdKey, [r]);
    AccumulateCons(AddGroup(groups, cmdKey, WithHost([r], host)), o, []);
    AccumulateCons(groups, Unmatched, [o]);
    assert [Unmatched, o] == [Unmatched] + [o] && [o] == [o] + [];
  }

  /** One step of the file loop. */
  lemma AccumulateCons(groups: map<string, seq<Record>>, o: FileOutcome, rest: seq<FileOutcome>)
    ensures Accumulate(groups, [o] + rest) ==
      if o.Crashed? then Aborted(o.key)
      else if o.Extracted? then Accumulate(AddGroup(groups, o.cmdKey, WithHost(o.records, o.host)), rest)
      else Accumulate(groups, rest)
  {
    assert ([o] + rest)[1..] == rest;
  }

  /** The file loop stops at the first `KeyError`, with its key, whatever
      comes after it. */
  lemma {:induction false} AbortsAtFirstCrash(groups: map<string, seq<Record>>, outcomes: seq<FileOutcome>, i: nat)
    requires i < |outcomes| && outcomes[i].Crashed? && NoCrash(outcomes[..i])
    ensures Accumulate(groups, outcomes) == Aborted(outcomes[i].key)
    decreases i
  {
    if i > 0 {
      assert outcomes[0] == outcomes[..i][0];
      var o := outcomes[0];
      var next := if o.Extracted? then AddGroup(groups, o.cmdKey, WithHost(o.records, o.host)) else groups;
      assert Accumulate(groups, outcomes) == Accumulate(next, outcomes[1..]);
      assert outcomes[1..][..i - 1] == outcomes[..i][1..];
      AbortsAtFirstCrash(next, outcomes[1..], i - 1);
    }
  }

  /** An outcome that is skipped changes nothing: the loop gives the same
      result with or without it, wherever it stands, so a failed file neither
      adds records nor stops the files after it. */
  lemma {:induction false} SkippedChangesNothing(groups: map<string, seq<Record>>, before: seq<FileOutcome>, o: FileOutcome, after: seq<FileOutcome>)
    requires Skipped(o)
    ensures Accumulate(groups, before + [o] + after) == Accumulate(groups, before + after)
    decreases |before|
  {
    if before == [] {
      assert before + [o] + after == [o] + after;
      assert ([o] + after)[1..] == after;
      assert before + after == after;
      if o.Extracted? {
        WithHostEmpty(o.records, o.host);
      }
    } else {
      var b := before[0];
      assert (before + [o] + after)[0] == b && (before + after)[0] == b;
      assert (before + [o] + after)[1..] == before[1..] + [o] + after;
      assert (before + after)[1..] == before[1..] + after;
      if !b.Crashed? {
        var next := if b.Extracted? then AddGroup(groups, b.cmdKey, WithHost(b.records, b.host)) else groups;
        SkippedChangesNothing(next, before[1..], o, after);
      }
    }
  }

  /** The command looked up for a file: each underscore of the command key
      becomes a space and each upper-case letter its lower-case form; nothing
      else changes and the length is kept. */
  lemma CliCommandSpec(cmdKey: string)
    ensures |CliCommand(cmdKey)| == |cmdKey|
    ensures forall i :: 0 <= i < |cmdKey| ==>
      CliCommand(cmdKey)[i] == if cmdKey[i] == '_' then ' ' else LowerChar(cmdKey[i])
  {
    ReplaceCharAt(cmdKey, '_', ' ');
  }

  /** The cases of one file: it raises exactly when the resolution raises; it
      is passed over exactly when no template, or an empty name, resolves;
      its template file is missing exactly when a non-empty name resolves
      that is not among the templates; otherwise parsing the capture with
      that template decides: a failed parse is reported and skipped, and a
      successful one gives its records under the host and command key the
      stem splits into. */
  lemma OutcomeCases(cfg: Config, platformMap: map<string, string>, file: CaptureFile)
    ensures var identity := SplitHostAndCommand(file.stem);
      var resolution := Resolved(platformMap, CliCommand(identity.1));
      var o := Outcome(cfg, platformMap, file);
      && (o.Crashed? <==> resolution.MissingKey?)
      && (o.Crashed? ==> o.key == resolution.key)
      && (o.Unmatched? <==> resolution.NoMatch? || resolution == Found(""))
      && (o.TemplateMissing? <==> resolution.Found? && resolution.template != "" && resolution.template !in cfg.templates)
      && (o.Extracted? ==>
            && o.host == identity.0 && o.cmdKey == identity.1
            && resolution.Found? && resolution.template in cfg.templates
            && ParseText(cfg.engine, cfg.templates[resolution.template], file.raw) == Some(o.records))
      && (o.ParseFailed? <==>
            && resolution.Found? && resolution.template != "" && resolution.template in cfg.templates
            && ParseText(cfg.engine, cfg.templates[resolution.template], file.raw).None?)
      && (resolution.Found? && resolution.template != "" && resolution.template in cfg.templates
          && ParseText(cfg.engine, cfg.templates[resolution.template], file.raw).Some? ==>
            o == Extracted(identity.0, identity.1, ParseText(cfg.engine, cfg.templates[resolution.template], file.raw).value))
  {
    var identity := SplitHostAndCommand(file.stem);
    var resolution := Resolved(platformMap, CliCommand(identity.1));
    if resolution.NoMatch? {
      assert Outcome(cfg, platformMap, file) == Unmatched;
    } else if resolution.MissingKey? {
      assert Outcome(cfg, platformMap, file) == Crashed(resolution.key);
    } else if resolution.template == "" {
      assert Outcome(cfg, platformMap, file) == Unmatched;
    } else if resolution.template !in cfg.templates {
      assert Outcome(cfg, platformMap, file) == TemplateMissing(resolution.template);
    } else {
      var parsed := ParseText(cfg.engine, cfg.templates[resolution.template], file.raw);
      assert Outcome(cfg, platformMap, file) == if parsed.None? then ParseFailed else Extracted(identity.0, identity.1, parsed.value);
    }
  }

  /** With a mapping whose keys are all stored lower-cased and trimmed, no
      file raises. */
  lemma CanonicalMappingNeverCrashes(cfg: Config, platformMap: map<string, string>, file: CaptureFile)
    requires forall key :: key in platformMap ==> Canonical(key) == key
    ensures !Outcome(cfg, platformMap, file).Crashed?
  {
    CanonicalMapNeverRaises(platformMap, CliCommand(SplitHostAndCommand(file.stem).1));
  }

  /** So with such a mapping every folder's file loop completes. */
  lemma CanonicalMappingCompletes(cfg: Config, platformMap: map<string, string>, files: seq<CaptureFile>)
    requires forall key :: key in platformMap ==> Canonical(key) == key
    ensures NoCrash(Outcomes(cfg, platformMap, files))
    ensures Accumulate(map[], Outcomes(cfg, platformMap, files)).Completed?
  {
    var outcomes := Outcomes(cfg, platformMap, files);
    forall i | 0 <= i < |files| ensures !outcomes[i].Crashed? {
      CanonicalMappingNeverCrashes(cfg, platformMap, files[i]);
    }
    AccumulateGroups(map[], outcomes);
  }

  /** The tables of a platform: one per group, in strictly increasing key
      order, each named after the platform and its command key, each with
      the group's records as its rows under a header that starts with
      `hostname`. */
  lemma EmittedSpec(platform: string, groups: map<string, seq<Record>>, keys: seq<string>, writes: seq<Write>)
    requires keys == SortedKeys(groups.Keys) && writes == Emitted(platform, groups)
    ensures |writes| == |keys| == |groups.Keys|
    ensures forall k :: k in keys <==> k in groups
    ensures forall i, j :: 0 <= i < j < |keys| ==> LexLess(keys[i], keys[j])
    ensures forall i :: 0 <= i < |keys| ==> keys[i] in groups && writes[i].name == TableName(platform, keys[i])
    ensures forall i :: 0 <= i < |keys| ==> keys[i] in groups && writes[i].table == Tabulated(groups[keys[i]])
    ensures forall i :: 0 <= i < |keys| ==> keys[i] in groups && |writes[i].table.body| == |groups[keys[i]]|
    ensures forall i :: 0 <= i < |keys| ==> writes[i].table.header[0] == HostColumn
  {
    SortedKeysSpec(groups.Keys);
    EmittedShape(platform, groups);
  }

  /** A folder whose resolved platform has no mapping, or an empty one,
      writes nothing and does not stop the run. */
  lemma UnmappedFolderSkipped(cfg: Config, folder: Folder)
    requires PlatformMap(cfg.mapping, ResolvedPlatform(cfg.aliases, folder.name)) == map[]
    ensures FolderConverted(cfg, folder) == RunResult([], None)
  {
  }

  /** The run over two stretches of folders: a crash in the first ends the
      run there; otherwise the second runs after it and its tables follow. */
  lemma {:induction false} ConvertedAppend(cfg: Config, first: seq<Folder>, second: seq<Folder>)
    ensures Converted(cfg, first).crash.Some? ==> Converted(cfg, first + second) == Converted(cfg, first)
    ensures Converted(cfg, first).crash.None? ==>
      Converted(cfg, first + second) == RunResult(Converted(cfg, first).writes + Converted(cfg, second).writes, Converted(cfg, second).crash)
    decreases |first|
  {
    if first == [] {
      assert first + second == second;
    } else {
      assert (first + second)[0] == first[0];
      assert (first + second)[1..] == first[1..] + second;
      ConvertedAppend(cfg, first[1..], second);
      var head := FolderConverted(cfg, first[0]);
      if head.crash.None? {
        AppendAssoc(head.writes, Converted(cfg, first[1..]).writes, Converted(cfg, second).writes);
      }
    }
  }

  /** Parsing fails exactly when the engine raises or a row is shorter than
      the header; otherwise there is one record per row, keyed by the
      lower-cased header. */
  lemma ParseTextSpec(engine: (string, string) -> EngineResult, templateText: string, raw: string)
    ensures var parsed := engine(Normalized(templateText), raw);
      ParseText(engine, templateText, raw).None? <==>
        parsed.EngineError? || exists i :: 0 <= i < |parsed.rows| && |parsed.rows[i]| < |parsed.header|
    ensures var parsed := engine(Normalized(templateText), raw);
      ParseText(engine, templateText, raw).Some? ==>
        var records := ParseText(engine, templateText, raw).value;
        |records| == |parsed.rows|
        && forall i :: 0 <= i < |records| ==> Keys(records[i]) == Distinct(LoweredHeader(parsed.header))
  {
    var parsed := engine(Normalized(templateText), raw);
    if parsed.Parsed? && ParseText(engine, templateText, raw).Some? {
      var records := ParseText(engine, templateText, raw).value;
      forall i | 0 <= i < |records| ensures Keys(records[i]) == Distinct(LoweredHeader(parsed.header)) {
        ProjectRowSpec(parsed.header, parsed.rows[i]);
      }
    }
  }
}
