/**
 * The identity splitter: a capture file's stem `<host>_<command>` becomes the
 * pair (host, command key). The source matches `^(?P<host>.+?)_(?P<cmd>.+)$`;
 * here that match is stated as a search for the first underscore that leaves
 * a non-empty host before it and a non-empty command after it.
 */
module Identity {
  import opened Wrappers

  /** The part of the stem the pattern's groups can cover: `.` never matches a
      line feed, and `$` also matches just before one final line feed. */
  function Body(stem: string): string {
    if |stem| > 0 && stem[|stem| - 1] == '\n' then stem[..|stem| - 1] else stem
  }

  /** An underscore at `i` can separate a non-empty host from a non-empty
      command. */
  predicate IsCut(body: string, i: int) {
    1 <= i <= |body| - 2 && body[i] == '_'
  }

  /** The lazy host group `.+?` stops at the first cut at or after `from`. */
  function FirstCut(body: string, from: nat): (r: Option<nat>)
    ensures r.Some? ==> from <= r.value && IsCut(body, r.value)
    ensures r.Some? ==> forall j :: from <= j < r.value ==> !IsCut(body, j)
    ensures r.None? ==> forall j :: from <= j < |body| ==> !IsCut(body, j)
    decreases |body| - from
  {
    if from + 2 > |body| then None
    else if IsCut(body, from) then Some(from)
    else FirstCut(body, from + 1)
  }

  /** `split_host_and_command`: when the pattern matches, the host is
      non-empty, holds no underscore after its first character (the cut is the
      first possible one), the command is non-empty, and host, underscore and
      command make up the stem without its final line feed; when it does not
      match, the host is empty and the command is the whole stem. */
  function SplitHostAndCommand(stem: string): (r: (string, string))
    ensures var body := Body(stem);
      if '\n' !in body && exists i :: IsCut(body, i) then
        && r.0 != [] && r.1 != []
        && r.0 + "_" + r.1 == body
        && (forall j :: 1 <= j < |r.0| ==> r.0[j] != '_')
      else
        r == ("", stem)
  {
    var body := Body(stem);
    if '\n' in body then ("", stem)
    else
      match FirstCut(body, 1)
      case None => ("", stem)
      case Some(i) =>
        assert forall j :: 1 <= j < i ==> body[..i][j] == body[j] && !IsCut(body, j);
        assert body[..i] + "_" + body[i + 1..] == body by {
          assert body == body[..i] + [body[i]] + body[i + 1..];
        }
        (body[..i], body[i + 1..])
  }

  /** Splitting inverts composing a stem from a host without underscores
      (past its first character) and any command. */
  lemma SplitComposed(host: string, cmd: string)
    requires host != [] && cmd != []
    requires '\n' !in host && '\n' !in cmd
    requires forall j :: 1 <= j < |host| ==> host[j] != '_'
    ensures SplitHostAndCommand(host + "_" + cmd) == (host, cmd)
  {
    var stem := host + "_" + cmd;
    assert stem[|stem| - 1] == cmd[|cmd| - 1];
    assert Body(stem) == stem;
    assert IsCut(stem, |host|);
    assert '\n' !in stem;
    var r := SplitHostAndCommand(stem);
    assert r.0 == stem[..|host|] == host;
    assert r.1 == stem[|host| + 1..] == cmd;
  }

  /** The host ends at the first underscore, so `r1_show_version` splits as
      ("r1", "show_version"); cutting at the last underscore would give
      ("r1_show", "version"). */
  lemma SplitsAtFirstUnderscore()
    ensures SplitHostAndCommand("r1_show_version") == ("r1", "show_version")
  {
    assert "r1" + "_" + "show_version" == "r1_show_version";
    SplitComposed("r1", "show_version");
  }

  /** With no underscore strictly inside the stem the pattern fails, so the
      host is empty and the command key is the whole stem. */
  lemma NoCutKeepsStem(stem: string)
    requires forall i :: 1 <= i < |stem| - 1 ==> stem[i] != '_'
    ensures SplitHostAndCommand(stem) == ("", stem)
  {
    var body := Body(stem);
    assert forall i :: 0 <= i < |body| ==> body[i] == stem[i];
  }
}
