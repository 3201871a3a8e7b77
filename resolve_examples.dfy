/**
 * Worked cases of the resolver on small maps.
 */
module ResolveExamples {
  import opened Strings
  import opened Resolve

  lemma PingQualifies(target: string)
    ensures Qualifies("ping " + target, "ping")
    ensures !Qualifies("ping " + target, "show ip route")
    ensures "ping " + target != "ping" && "ping " + target != "show ip route" && "ping " + target != "Ping"
  {
    var command := "ping " + target;
    assert command[0] != "show ip route"[0] && command[0] != "Ping"[0];
    assert |command| > 4;
  }

  lemma StoredKeysCanonical()
    ensures Canonical("ping") == "ping" && Canonical("show ip route") == "show ip route"
  {
    CanonicalText("ping");
    CanonicalText("show ip route");
  }

  /** `ping` matches `ping <target>` by prefix, and `show ip route` does not. */
  lemma PingMatchesByPrefix(pingTemplate: string, routeTemplate: string, target: string)
    requires target != [] && !IsSpace(target[|target| - 1])
    requires forall i :: 0 <= i < |target| ==> !('A' <= target[i] <= 'Z')
    ensures Resolved(map["ping" := pingTemplate, "show ip route" := routeTemplate], "ping " + target)
      == Found(pingTemplate)
  {
    var m := map["ping" := pingTemplate, "show ip route" := routeTemplate];
    CanonicalCommand("ping ", target);
    PingQualifies(target);
    StoredKeysCanonical();
    ResolvedByLongest(m, "ping " + target, "ping");
  }

  /** `show ip route` is not a prefix of `traceroute <target>`. */
  lemma UnrelatedCommandDoesNotMatch(routeTemplate: string, target: string)
    requires target != [] && !IsSpace(target[|target| - 1])
    requires forall i :: 0 <= i < |target| ==> !('A' <= target[i] <= 'Z')
    ensures Resolved(map["show ip route" := routeTemplate], "traceroute " + target) == NoMatch
  {
    var m := map["show ip route" := routeTemplate];
    var command := "traceroute " + target;
    CanonicalCommand("traceroute ", target);
    assert CanonicalKeys(m) == {"show ip route"} by {
      CanonicalText("show ip route");
    }
    assert !Qualifies(command, "show ip route") by {
      assert command[0] != "show ip route"[0];
    }
    NoMatchIffNoQualifyingKey(m, command);
  }

  /** An empty map resolves nothing. */
  lemma EmptyMapNoMatch(cliCmd: string)
    ensures Resolved(map[], cliCmd) == NoMatch
  {
    NoMatchIffNoQualifyingKey(map[], cliCmd);
  }

  lemma LoweredPing()
    ensures Canonical("Ping") == "ping"
  {
    StripTrimmed("Ping");
    assert Lower("Ping") == "ping";
  }

  /** A key stored as `Ping` qualifies in its canonical form `ping`, but the
      lookup `platform_map["ping"]` then raises `KeyError`. */
  lemma UnnormalizedKeyRaises(template: string, target: string)
    requires target != [] && !IsSpace(target[|target| - 1])
    requires forall i :: 0 <= i < |target| ==> !('A' <= target[i] <= 'Z')
    ensures Resolved(map["Ping" := template], "ping " + target) == MissingKey("ping")
  {
    CanonicalCommand("ping ", target);
    LoweredPing();
    PingQualifies(target);
    ResolvedByLongest(map["Ping" := template], "ping " + target, "Ping");
  }
}
