/**
 * The template resolver: given one platform's command-to-template map and a
 * CLI command, pick a template by exact match first and then by the longest
 * key that is the command itself or a space-delimited prefix of it.
 */
module Resolve {
  import opened Wrappers
  import opened Strings

  /** `s.strip().lower()`, the form both the command and every key are
      compared in. */
  function Canonical(s: string): string {
    Lower(Strip(s))
  }

  /** `command == key` or `command.startswith(key + " ")`. */
  predicate Qualifies(command: string, key: string) {
    StartsWith(command, key + " ") || command == key
  }

  /** The outcome of `resolve_template`. `MissingKey` is the `KeyError` that
      `platform_map[best_key]` raises when the winning key is stored in the
      map in a form other than its canonical one. */
  datatype Resolution = NoMatch | Found(template: string) | MissingKey(key: string)

  function CanonicalKeys(platformMap: map<string, string>): set<string> {
    set key | key in platformMap :: Canonical(key)
  }

  /** A qualifying key is a prefix of the command. */
  lemma QualifiesIsPrefix(command: string, key: string)
    requires Qualifies(command, key)
    ensures |key| <= |command| && command[..|key|] == key
  {
    if command != key {
      assert (key + " ")[..|key|] == key;
    }
  }

  /** Two qualifying keys of the same length are the same key, so the choice
      among equally long candidates never depends on iteration order. */
  lemma QualifyingTie(command: string, k1: string, k2: string)
    requires Qualifies(command, k1) && Qualifies(command, k2) && |k1| == |k2|
    ensures k1 == k2
  {
    QualifiesIsPrefix(command, k1);
    QualifiesIsPrefix(command, k2);
  }

  /** The longest key of `keys`, no longer than `n`, that qualifies. */
  function LongestQualifying(command: string, keys: set<string>, n: nat): (r: Option<string>)
    requires n <= |command|
    ensures r.Some? ==> r.value in keys && Qualifies(command, r.value) && |r.value| <= n
    ensures forall k :: k in keys && Qualifies(command, k) && |k| <= n ==> r.Some? && |k| <= |r.value|
    decreases n
  {
    var candidate := command[..n];
    if candidate in keys && Qualifies(command, candidate) then Some(candidate)
    else if n == 0 then None
    else
      var r := LongestQualifying(command, keys, n - 1);
      assert forall k :: k in keys && Qualifies(command, k) && |k| == n ==> k == candidate by {
        forall k | k in keys && Qualifies(command, k) && |k| == n ensures k == candidate {
          QualifiesIsPrefix(command, k);
        }
      }
      r
  }

  /** What `resolve_template` returns for `cliCmd`. */
  function Resolved(platformMap: map<string, string>, cliCmd: string): Resolution {
    var command := Canonical(cliCmd);
    if command in platformMap then Found(platformMap[command])
    else
      match LongestQualifying(command, CanonicalKeys(platformMap), |command|)
      case None => NoMatch
      case Some(best) =>
        if best in platformMap then Found(platformMap[best]) else MissingKey(best)
  }

  /** `resolve_template`: the loop visits the keys in an arbitrary order and
      keeps the longest qualifying one; whatever the order, the result is
      `Resolved`. */
  method ResolveTemplate(platformMap: map<string, string>, cliCmd: string) returns (r: Resolution)
    ensures r == Resolved(platformMap, cliCmd)
  {
    var command := Canonical(cliCmd);
    if command in platformMap {
      return Found(platformMap[command]);
    }
    var bestKey: Option<string> := None;
    var remaining := platformMap.Keys;
    while remaining != {}
      invariant remaining <= platformMap.Keys
      invariant bestKey.Some? ==> bestKey.value in CanonicalKeys(platformMap) && Qualifies(command, bestKey.value)
      invariant forall key :: key in platformMap && key !in remaining && Qualifies(command, Canonical(key)) ==>
        bestKey.Some? && |Canonical(key)| <= |bestKey.value|
      decreases remaining
    {
      var key :| key in remaining;
      bestKey := ConsiderKey(command, key, bestKey);
      remaining := remaining - {key};
    }
    SameLongest(platformMap, command, bestKey);
    if bestKey.Some? {
      if bestKey.value in platformMap {
        r := Found(platformMap[bestKey.value]);
      } else {
        r := MissingKey(bestKey.value);
      }
    } else {
      r := NoMatch;
    }
  }

  /** One pass of the loop: `key` replaces the best key so far when its
      canonical form qualifies and is strictly longer. */
  method ConsiderKey(command: string, key: string, bestKey: Option<string>) returns (r: Option<string>)
    ensures r == bestKey || r == Some(Canonical(key))
    ensures r.Some? && r != bestKey ==> Qualifies(command, r.value)
    ensures Qualifies(command, Canonical(key)) ==> r.Some? && |Canonical(key)| <= |r.value|
    ensures bestKey.Some? ==> r.Some? && |bestKey.value| <= |r.value|
  {
    r := bestKey;
    var k := Canonical(key);
    if StartsWith(command, k + " ") || command == k {
      if bestKey.None? || |k| > |bestKey.value| {
        r := Some(k);
      }
    }
  }

  /** Any candidate that qualifies and is at least as long as every other
      qualifying key is the one `LongestQualifying` finds. */
  lemma SameLongest(platformMap: map<string, string>, command: string, best: Option<string>)
    requires best.Some? ==> best.value in CanonicalKeys(platformMap) && Qualifies(command, best.value)
    requires forall key :: key in platformMap && Qualifies(command, Canonical(key)) ==>
      best.Some? && |Canonical(key)| <= |best.value|
    ensures best == LongestQualifying(command, CanonicalKeys(platformMap), |command|)
  {
    var keys := CanonicalKeys(platformMap);
    var expected := LongestQualifying(command, keys, |command|);
    if best.Some? {
      QualifiesIsPrefix(command, best.value);
      var s := expected.value;
      var key :| key in platformMap && Canonical(key) == s;
      QualifyingTie(command, best.value, s);
    }
  }

  /** The canonical form of a key that qualifies is among the candidates
      `LongestQualifying` searches, so the search finds some key at least as
      long. */
  lemma QualifyingKeyFound(platformMap: map<string, string>, command: string, key: string)
    requires key in platformMap && Qualifies(command, Canonical(key))
    ensures var best := LongestQualifying(command, CanonicalKeys(platformMap), |command|);
      best.Some? && |Canonical(key)| <= |best.value|
  {
    QualifiesIsPrefix(command, Canonical(key));
    assert Canonical(key) in CanonicalKeys(platformMap);
  }

  /** An exact match of the canonical command is returned whatever other
      keys, shorter prefixes of it included, the map holds. */
  lemma ExactMatchWins(platformMap: map<string, string>, cliCmd: string)
    requires Canonical(cliCmd) in platformMap
    ensures Resolved(platformMap, cliCmd) == Found(platformMap[Canonical(cliCmd)])
  {
  }

  /** No template is found exactly when no key, in canonical form, is the
      command or a space-delimited prefix of it. */
  lemma NoMatchIffNoQualifyingKey(platformMap: map<string, string>, cliCmd: string)
    ensures Resolved(platformMap, cliCmd) == NoMatch <==>
      forall key :: key in platformMap ==> !Qualifies(Canonical(cliCmd), Canonical(key))
  {
    var command := Canonical(cliCmd);
    if command in platformMap {
      CanonicalIdempotent(cliCmd);
      assert Qualifies(command, Canonical(command));
    }
    forall key | key in platformMap && Qualifies(command, Canonical(key))
      ensures Resolved(platformMap, cliCmd) != NoMatch
    {
      QualifyingKeyFound(platformMap, command, key);
    }
  }

  /** Without an exact match, the result is decided by a longest qualifying
      key: the template stored under its canonical form, or a `KeyError` when
      that form is not a key of the map. */
  lemma LongestKeyWins(platformMap: map<string, string>, cliCmd: string)
    requires Canonical(cliCmd) !in platformMap
    requires Resolved(platformMap, cliCmd) != NoMatch
    ensures var command := Canonical(cliCmd);
      exists key :: key in platformMap && Qualifies(command, Canonical(key))
        && (forall other :: other in platformMap && Qualifies(command, Canonical(other)) ==>
              |Canonical(other)| <= |Canonical(key)|)
        && Resolved(platformMap, cliCmd) ==
             if Canonical(key) in platformMap then Found(platformMap[Canonical(key)])
             else MissingKey(Canonical(key))
  {
    var command := Canonical(cliCmd);
    var best := LongestQualifying(command, CanonicalKeys(platformMap), |command|);
    var key :| key in platformMap && Canonical(key) == best.value;
    forall other | other in platformMap && Qualifies(command, Canonical(other))
      ensures |Canonical(other)| <= |Canonical(key)|
    {
      QualifyingKeyFound(platformMap, command, other);
    }
    assert Qualifies(command, Canonical(key));
    assert Resolved(platformMap, cliCmd) ==
      if Canonical(key) in platformMap then Found(platformMap[Canonical(key)]) else MissingKey(Canonical(key));
  }

  /** When every key is stored already stripped and lower-cased, the lookup
      of the winning key never raises. */
  lemma CanonicalMapNeverRaises(platformMap: map<string, string>, cliCmd: string)
    requires forall key :: key in platformMap ==> Canonical(key) == key
    ensures !Resolved(platformMap, cliCmd).MissingKey?
  {
    var command := Canonical(cliCmd);
    var best := LongestQualifying(command, CanonicalKeys(platformMap), |command|);
    if command !in platformMap && best.Some? {
      var key :| key in platformMap && Canonical(key) == best.value;
    }
  }

  /** Text with no whitespace at either end is its own strip. */
  lemma StripTrimmed(s: string)
    requires s == [] || (!IsSpace(s[0]) && !IsSpace(s[|s| - 1]))
    ensures Strip(s) == s
  {
  }

  /** A canonical command is its own canonical form, so an exact match is
      also a qualifying key. */
  lemma CanonicalIdempotent(s: string)
    ensures Canonical(Canonical(s)) == Canonical(s)
  {
    var r := RStrip(s);
    var x := Strip(s);
    assert x == [] || x[|x| - 1] == r[|r| - 1];
    var y := Lower(x);
    assert forall i :: 0 <= i < |y| ==> IsSpace(y[i]) == IsSpace(x[i]);
    StripTrimmed(y);
    assert Lower(y) == y;
  }

  /** Text without upper-case letters and without surrounding whitespace is
      already canonical. */
  lemma CanonicalText(s: string)
    requires s == [] || (!IsSpace(s[0]) && !IsSpace(s[|s| - 1]))
    requires forall i :: 0 <= i < |s| ==> !('A' <= s[i] <= 'Z')
    ensures Canonical(s) == s
  {
    StripTrimmed(s);
    assert Lower(s) == s;
  }

  /** A qualifying candidate at least as long as every other one is what
      the search returns. */
  lemma LongestIsUnique(command: string, keys: set<string>, k: string)
    requires k in keys && Qualifies(command, k)
    requires forall other :: other in keys && Qualifies(command, other) ==> |other| <= |k|
    ensures LongestQualifying(command, keys, |command|) == Some(k)
  {
    QualifiesIsPrefix(command, k);
    var best := LongestQualifying(command, keys, |command|);
    QualifyingTie(command, k, best.value);
  }

  /** When every key is stored in canonical form, the candidates are the keys
      themselves. */
  lemma CanonicalKeysOfCanonicalMap(platformMap: map<string, string>)
    requires forall key :: key in platformMap ==> Canonical(key) == key
    ensures CanonicalKeys(platformMap) == platformMap.Keys
  {
  }

  /** The converse of `LongestKeyWins`: without an exact match, a stored key
      whose canonical form qualifies and is at least as long as that of every
      other qualifying key decides the result. */
  lemma ResolvedByLongest(platformMap: map<string, string>, cliCmd: string, key: string)
    requires Canonical(cliCmd) !in platformMap
    requires key in platformMap && Qualifies(Canonical(cliCmd), Canonical(key))
    requires forall other :: other in platformMap && Qualifies(Canonical(cliCmd), Canonical(other)) ==>
      |Canonical(other)| <= |Canonical(key)|
    ensures Resolved(platformMap, cliCmd) ==
      if Canonical(key) in platformMap then Found(platformMap[Canonical(key)]) else MissingKey(Canonical(key))
  {
    LongestIsUnique(Canonical(cliCmd), CanonicalKeys(platformMap), Canonical(key));
  }

  /** A command word and its argument, neither of them with upper-case
      letters, make a canonical command when the word does not start with
      whitespace and the argument does not end with it. */
  lemma CanonicalCommand(word: string, target: string)
    requires word != [] && !IsSpace(word[0])
    requires forall i :: 0 <= i < |word| ==> !('A' <= word[i] <= 'Z')
    requires target != [] && !IsSpace(target[|target| - 1])
    requires forall i :: 0 <= i < |target| ==> !('A' <= target[i] <= 'Z')
    ensures Canonical(word + target) == word + target
  {
    var s := word + target;
    assert s[0] == word[0] && s[|s| - 1] == target[|target| - 1];
    forall i | 0 <= i < |s| ensures !('A' <= s[i] <= 'Z') {
      if i >= |word| { assert s[i] == target[i - |word|]; }
    }
    CanonicalText(s);
  }
}
