/**
 * The template normalizer: before a template reaches the template engine,
 * rule lines (`^...`) that lost their indentation after a state name are
 * given two leading spaces, and the text is closed with exactly one line
 * feed. One boolean of state records whether a state-name line has been seen.
 */
module Normalize {
  import opened Strings

  /** Value declarations, blank lines and comments pass through and leave the
      state alone. */
  predicate IsPassLine(line: string) {
    StartsWith(line, "Value ") || BlankOrComment(line)
  }

  /** `not line.strip() or line.lstrip().startswith("#")`, as one scan over
      the leading whitespace. */
  predicate BlankOrComment(line: string)
    decreases |line|
  {
    line == [] || line[0] == '#' || (IsSpace(line[0]) && BlankOrComment(line[1..]))
  }

  lemma {:induction false} BlankOrCommentStrip(line: string)
    ensures BlankOrComment(line) <==> Strip(line) == "" || StartsWith(LStrip(line), "#")
    decreases |line|
  {
    if line != [] {
      if IsSpace(line[0]) {
        BlankOrCommentStrip(line[1..]);
        SpaceHead(line);
      } else {
        NonSpaceHead(line);
      }
    }
  }

  lemma SpaceHead(line: string)
    requires line != [] && IsSpace(line[0])
    ensures Strip(line) == "" <==> Strip(line[1..]) == ""
    ensures LStrip(line) == LStrip(line[1..])
  {
    StripEmptyIffAllSpace(line);
    StripEmptyIffAllSpace(line[1..]);
    if AllSpace(line[1..]) {
      forall i | 0 <= i < |line| ensures IsSpace(line[i]) {
        if i > 0 {
          assert line[i] == line[1..][i - 1];
        }
      }
    }
    if AllSpace(line) {
      forall i | 0 <= i < |line[1..]| ensures IsSpace(line[1..][i]) {
        assert line[1..][i] == line[i + 1];
      }
    }
  }

  lemma NonSpaceHead(line: string)
    requires line != [] && !IsSpace(line[0])
    ensures Strip(line) != "" && LStrip(line) == line
  {
    StripEmptyIffAllSpace(line);
    assert !AllSpace(line);
  }

  /** Neither indented nor a rule. */
  predicate OpensState(line: string) {
    !StartsWith(line, " ") && !StartsWith(line, "\t") && !StartsWith(line, "^")
  }

  /** A state-name line: it opens a state block. */
  predicate IsStateLine(line: string) {
    !IsPassLine(line) && OpensState(line)
  }

  predicate IsRule(line: string) {
    StartsWith(line, "^")
  }

  /** What one pass of the loop emits for `line`. */
  function RewriteLine(line: string, inState: bool): string {
    if IsPassLine(line) then line
    else if OpensState(line) then line
    else if IsRule(line) && inState then "  " + line
    else line
  }

  /** The value of the state flag after `line`. */
  function NextState(line: string, inState: bool): bool {
    if IsPassLine(line) then inState
    else if OpensState(line) then true
    else inState
  }

  function RewriteLines(lines: seq<string>, inState: bool): seq<string>
    decreases |lines|
  {
    if lines == [] then []
    else [RewriteLine(lines[0], inState)] + RewriteLines(lines[1..], NextState(lines[0], inState))
  }

  /** The lines the loop visits: CR LF pairs become LF, then the text is cut
      at every LF. */
  function Lines(text: string): seq<string> {
    Split(Replace(text, "\r\n", "\n"), '\n')
  }

  /** `normalize_template`: the rewritten lines, joined, right-stripped and
      closed by one line feed, so the result ends in a line feed that no other
      whitespace precedes. */
  function Normalized(text: string): (r: string)
    ensures |r| > 0 && r[|r| - 1] == '\n'
    ensures |r| == 1 || !IsSpace(r[|r| - 2])
  {
    RStrip(Join(RewriteLines(Lines(text), false), '\n')) + "\n"
  }

  /** `normalize_template`, proved to compute `Normalized`. */
  method NormalizeTemplate(text: string) returns (r: string)
    ensures r == Normalized(text)
  {
    var lines := Split(Replace(text, "\r\n", "\n"), '\n');
    var out := RewriteAll(lines);
    r := RStrip(Join(out, '\n')) + "\n";
  }

  /** The loop of `normalize_template`, over the lines with the state flag. */
  method RewriteAll(lines: seq<string>) returns (out: seq<string>)
    ensures out == RewriteLines(lines, false)
  {
    out := [];
    var inState := false;
    for i := 0 to |lines|
      invariant out + RewriteLines(lines[i..], inState) == RewriteLines(lines, false)
    {
      RewriteLinesStep(lines, i, inState);
      var emitted;
      emitted, inState := ClassifyLine(lines[i], inState);
      out := out + [emitted];
    }
    assert lines[|lines|..] == [];
    assert out + [] == out;
  }

  /** The body of the loop: which case `line` falls in, what is emitted for
      it, and the new value of the state flag. */
  method ClassifyLine(line: string, inState: bool) returns (emitted: string, next: bool)
    ensures emitted == RewriteLine(line, inState) && next == NextState(line, inState)
  {
    next := inState;
    var pass := PassTest(line);
    if pass {
      emitted := line;
    } else if !StartsWith(line, " ") && !StartsWith(line, "\t") && !StartsWith(line, "^") {
      next := true;
      emitted := line;
    } else if StartsWith(line, "^") && inState {
      emitted := "  " + line;
    } else {
      emitted := line;
    }
  }

  /** The first test of the loop body, as the source writes it. */
  method PassTest(line: string) returns (pass: bool)
    ensures pass == IsPassLine(line)
  {
    BlankOrCommentStrip(line);
    pass := StartsWith(line, "Value ") || Strip(line) == "" || StartsWith(LStrip(line), "#");
  }

  /** One step of the loop: the rewrite of the rest starts with that of its
      first line. */
  lemma RewriteLinesStep(lines: seq<string>, i: nat, inState: bool)
    requires i < |lines|
    ensures RewriteLines(lines[i..], inState)
      == [RewriteLine(lines[i], inState)] + RewriteLines(lines[i + 1..], NextState(lines[i], inState))
  {
    assert lines[i..][1..] == lines[i + 1..];
  }

  // ---------------------------------------------------------------------
  // Which lines are rewritten

  /** Some state-name line occurs in `prefix`, or the state was already open. */
  predicate StateBefore(prefix: seq<string>, inState: bool) {
    inState || exists j :: 0 <= j < |prefix| && IsStateLine(prefix[j])
  }

  /** A rule line is neither a pass-through line nor a state-name line. */
  lemma RuleIsNotPassOrState(line: string)
    requires IsRule(line)
    ensures !IsPassLine(line) && !OpensState(line)
  {
    assert line[0] == '^';
  }

  lemma RewriteLineRule(line: string, inState: bool)
    ensures RewriteLine(line, inState) == if IsRule(line) && inState then "  " + line else line
    ensures NextState(line, inState) == (inState || IsStateLine(line))
  {
    if IsRule(line) { RuleIsNotPassOrState(line); }
  }

  lemma StateBeforeCons(line: string, rest: seq<string>, inState: bool)
    ensures StateBefore([line] + rest, inState) == StateBefore(rest, inState || IsStateLine(line))
  {
    var p := [line] + rest;
    assert p[0] == line;
    if !inState && !IsStateLine(line) {
      if StateBefore(rest, false) {
        var j :| 0 <= j < |rest| && IsStateLine(rest[j]);
        assert p[j + 1] == rest[j];
        assert StateBefore(p, false);
      }
      if StateBefore(p, false) {
        var j :| 0 <= j < |p| && IsStateLine(p[j]);
        assert j != 0;
        assert rest[j - 1] == p[j];
        assert StateBefore(rest, false);
      }
    }
  }

  /** The line-rewriting rule: a rule line is indented by two spaces exactly
      when some state-name line precedes it; every other line, and every rule
      line before the first state-name line, is emitted unchanged. */
  lemma {:induction false} RewriteLinesAt(lines: seq<string>, inState: bool)
    ensures |RewriteLines(lines, inState)| == |lines|
    ensures forall i :: 0 <= i < |lines| ==>
      RewriteLines(lines, inState)[i] ==
        if IsRule(lines[i]) && StateBefore(lines[..i], inState) then "  " + lines[i] else lines[i]
    decreases |lines|
  {
    if lines != [] {
      var rest := lines[1..];
      var next := NextState(lines[0], inState);
      RewriteLineRule(lines[0], inState);
      RewriteLinesAt(rest, next);
      forall i | 0 <= i < |lines|
        ensures RewriteLines(lines, inState)[i] ==
          if IsRule(lines[i]) && StateBefore(lines[..i], inState) then "  " + lines[i] else lines[i]
      {
        if i > 0 {
          RewriteAtLaterLine(lines, inState, i);
        }
      }
    }
  }

  /** The inductive step of `RewriteLinesAt` at one line after the first. */
  lemma RewriteAtLaterLine(lines: seq<string>, inState: bool, i: nat)
    requires 0 < i < |lines|
    requires NextState(lines[0], inState) == (inState || IsStateLine(lines[0]))
    requires |RewriteLines(lines[1..], NextState(lines[0], inState))| == |lines| - 1
    requires var rest := lines[1..];
      RewriteLines(rest, NextState(lines[0], inState))[i - 1] ==
        if IsRule(rest[i - 1]) && StateBefore(rest[..i - 1], NextState(lines[0], inState)) then "  " + rest[i - 1] else rest[i - 1]
    ensures RewriteLines(lines, inState)[i] ==
      if IsRule(lines[i]) && StateBefore(lines[..i], inState) then "  " + lines[i] else lines[i]
  {
    var rest := lines[1..];
    assert lines[..i] == [lines[0]] + rest[..i - 1];
    StateBeforeCons(lines[0], rest[..i - 1], inState);
    assert rest[i - 1] == lines[i];
  }

  // ---------------------------------------------------------------------
  // Idempotence

  /** No rule line is preceded by a state-name line: a second pass keeps
      every line. */
  predicate Stable(lines: seq<string>, inState: bool) {
    forall i :: 0 <= i < |lines| && IsRule(lines[i]) ==> !StateBefore(lines[..i], inState)
  }

  lemma StableUnchanged(lines: seq<string>, inState: bool)
    requires Stable(lines, inState)
    ensures RewriteLines(lines, inState) == lines
  {
    RewriteLinesAt(lines, inState);
  }

  /** Rewritten lines start with a space, so they are rules no longer, and the
      other lines keep their class: the output of a pass is stable. */
  lemma RewriteStable(lines: seq<string>, inState: bool)
    ensures Stable(RewriteLines(lines, inState), inState)
  {
    RewriteLinesAt(lines, inState);
    var out := RewriteLines(lines, inState);
    forall i | 0 <= i < |out| && IsRule(out[i])
      ensures !StateBefore(out[..i], inState)
    {
      assert out[i] == lines[i];
      assert !StateBefore(lines[..i], inState);
      forall j | 0 <= j < i ensures !IsStateLine(out[..i][j]) {
        assert out[..i][j] == out[j];
        assert lines[..i][j] == lines[j];
      }
    }
  }

  /** The lines of `RStrip(Join(lines))`: trailing blank lines are dropped and
      the last remaining line is right-stripped. */
  function TrimLines(lines: seq<string>): (r: seq<string>)
    requires |lines| > 0
    ensures 0 < |r| <= |lines|
    decreases |lines|
  {
    var n := |lines|;
    if n > 1 && AllSpace(lines[n - 1]) then TrimLines(lines[..n - 1])
    else lines[..n - 1] + [RStrip(lines[n - 1])]
  }

  lemma {:induction false} RStripJoin(lines: seq<string>)
    requires |lines| > 0
    ensures RStrip(Join(lines, '\n')) == Join(TrimLines(lines), '\n')
    decreases |lines|
  {
    var n := |lines|;
    if n > 1 {
      var init := lines[..n - 1];
      var last := lines[n - 1];
      assert Join(lines, '\n') == Join(init, '\n') + ("\n" + last);
      if AllSpace(last) {
        assert AllSpace("\n" + last) by {
          assert forall i :: 0 < i < |"\n" + last| ==> ("\n" + last)[i] == last[i - 1];
        }
        RStripSpaceTail(Join(init, '\n'), "\n" + last);
        RStripJoin(init);
      } else {
        assert !AllSpace("\n" + last) by {
          var i :| 0 <= i < |last| && !IsSpace(last[i]);
          assert ("\n" + last)[i + 1] == last[i];
        }
        RStripNonSpaceTail(Join(init, '\n'), "\n" + last);
        assert RStrip("\n" + last) == "\n" + RStrip(last) by {
          RStripNonSpaceTail("\n", last);
        }
        var t := init + [RStrip(last)];
        assert t[..n - 1] == init;
      }
    }
  }

  lemma {:induction false} TrimStable(lines: seq<string>, inState: bool)
    requires |lines| > 0 && Stable(lines, inState)
    ensures Stable(TrimLines(lines), inState)
    decreases |lines|
  {
    var n := |lines|;
    var init := lines[..n - 1];
    assert Stable(init, inState) by {
      forall i | 0 <= i < |init| && IsRule(init[i]) ensures !StateBefore(init[..i], inState) {
        assert init[..i] == lines[..i];
        assert init[i] == lines[i];
      }
    }
    if n > 1 && AllSpace(lines[n - 1]) {
      TrimStable(init, inState);
    } else {
      var last := RStrip(lines[n - 1]);
      var t := init + [last];
      forall i | 0 <= i < |t| && IsRule(t[i]) ensures !StateBefore(t[..i], inState) {
        assert t[..i] == lines[..i];
        if i == n - 1 {
          assert lines[n - 1][0] == last[0];
        } else {
          assert t[i] == lines[i];
        }
      }
    }
  }

  lemma StableAppendBlank(lines: seq<string>, inState: bool)
    requires Stable(lines, inState)
    ensures Stable(lines + [[]], inState)
  {
    var t := lines + [[]];
    forall i | 0 <= i < |t| && IsRule(t[i]) ensures !StateBefore(t[..i], inState) {
      assert t[..i] == lines[..i];
      assert t[i] == lines[i];
    }
  }

  /** No line of the trimmed join holds a line feed when none of the lines
      did. */
  lemma {:induction false} TrimNoLineFeed(lines: seq<string>)
    requires |lines| > 0 && forall i :: 0 <= i < |lines| ==> '\n' !in lines[i]
    ensures forall i :: 0 <= i < |TrimLines(lines)| ==> '\n' !in TrimLines(lines)[i]
    decreases |lines|
  {
    var n := |lines|;
    if n > 1 && AllSpace(lines[n - 1]) {
      TrimNoLineFeed(lines[..n - 1]);
    } else {
      var t := TrimLines(lines);
      forall i | 0 <= i < |t| ensures '\n' !in t[i] {
        if i < n - 1 {
          assert t[i] == lines[i];
        } else {
          assert RStrip(lines[n - 1]) <= lines[n - 1];
        }
      }
    }
  }

  /** A rewritten line is the original line, possibly after two spaces, so
      it holds the original's characters and perhaps spaces, no others. */
  lemma RewriteChars(lines: seq<string>, inState: bool)
    ensures |RewriteLines(lines, inState)| == |lines|
    ensures forall i :: 0 <= i < |lines| ==>
      RewriteLines(lines, inState)[i] == lines[i] || RewriteLines(lines, inState)[i] == "  " + lines[i]
    ensures forall i, c :: 0 <= i < |lines| && c in RewriteLines(lines, inState)[i] ==> c == ' ' || c in lines[i]
    ensures forall i, c :: 0 <= i < |lines| && c in lines[i] ==> c in RewriteLines(lines, inState)[i]
  {
    RewriteLinesAt(lines, inState);
    var out := RewriteLines(lines, inState);
    forall i, c | 0 <= i < |lines| && c in lines[i] ensures c in out[i] {
      if out[i] != lines[i] {
        var m :| 0 <= m < |lines[i]| && lines[i][m] == c;
        assert out[i][m + 2] == c;
      }
    }
  }

  /** The lines of the first pass hold no line feed, nor a carriage return
      when the text had none. */
  lemma FirstPassLines(text: string)
    ensures var out := RewriteLines(Lines(text), false);
      && |out| > 0
      && (forall i :: 0 <= i < |out| ==> '\n' !in out[i])
      && ('\r' !in text ==> forall i :: 0 <= i < |out| ==> '\r' !in out[i])
  {
    var replaced := Replace(text, "\r\n", "\n");
    var lines := Lines(text);
    SplitPiecesNoSep(replaced, '\n');
    SplitChars(replaced, '\n');
    RewriteChars(lines, false);
    if '\r' !in text {
      ReplaceAbsent(text, "\r\n", "\n");
    }
  }

  lemma PrefixLacks(a: string, b: string, c: char)
    requires a <= b && c !in b
    ensures c !in a
  {
  }

  /** What the second pass sees: the trimmed lines of the first pass and one
      empty line after the final line feed. */
  lemma SecondPassLines(out: seq<string>)
    requires |out| > 0
    requires forall i :: 0 <= i < |out| ==> '\n' !in out[i] && '\r' !in out[i]
    ensures var body := RStrip(Join(out, '\n'));
      && body == Join(TrimLines(out), '\n')
      && Lines(body + "\n") == TrimLines(out) + [[]]
  {
    var trimmed := TrimLines(out);
    RStripJoin(out);
    var body := RStrip(Join(out, '\n'));
    BodyLacksReturn(out);
    ReplaceAbsent(body + "\n", "\r\n", "\n");
    TrimNoLineFeed(out);
    SplitSnoc(body, '\n', '\n');
    SplitJoin(trimmed, '\n');
  }

  lemma BodyLacksReturn(out: seq<string>)
    requires forall i :: 0 <= i < |out| ==> '\r' !in out[i]
    ensures '\r' !in RStrip(Join(out, '\n')) + "\n"
  {
    var joined := Join(out, '\n');
    JoinChars(out, '\n');
    assert '\r' !in joined;
    PrefixLacks(RStrip(joined), joined, '\r');
  }

  /** For text without carriage returns, a second normalization changes
      nothing. */
  lemma NormalizeIdempotent(text: string)
    requires '\r' !in text
    ensures Normalized(Normalized(text)) == Normalized(text)
  {
    var lines := Lines(text);
    var out := RewriteLines(lines, false);
    FirstPassLines(text);
    var trimmed := TrimLines(out);
    var body := RStrip(Join(out, '\n'));
    SecondPassLines(out);
    assert Normalized(text) == body + "\n";
    RewriteStable(lines, false);
    TrimStable(out, false);
    StableAppendBlank(trimmed, false);
    StableUnchanged(trimmed + [[]], false);
    assert (trimmed + [[]])[..|trimmed|] == trimmed;
    assert Join(trimmed + [[]], '\n') == body + "\n";
    RStripSpaceTail(body, "\n");
  }

  /** An input made only of whitespace normalizes to a lone line feed. */
  lemma AllSpaceNormalized(text: string)
    requires AllSpace(text)
    ensures Normalized(text) == "\n"
  {
    var replaced := Replace(text, "\r\n", "\n");
    var lines := Lines(text);
    ReplaceChars(text, "\r\n", "\n");
    SplitChars(replaced, '\n');
    assert forall c :: c in replaced ==> IsSpace(c) by {
      forall c | c in replaced ensures IsSpace(c) {
        if c in text {
          var k :| 0 <= k < |text| && text[k] == c;
        }
      }
    }
    forall i | 0 <= i < |lines| ensures !IsRule(lines[i]) && AllSpace(lines[i]) {
      forall k | 0 <= k < |lines[i]| ensures IsSpace(lines[i][k]) {
        assert lines[i][k] in lines[i];
      }
      if |lines[i]| > 0 { assert IsSpace(lines[i][0]); }
    }
    assert Stable(lines, false);
    StableUnchanged(lines, false);
    var joined := Join(lines, '\n');
    JoinChars(lines, '\n');
    forall k | 0 <= k < |joined| ensures IsSpace(joined[k]) {
      assert joined[k] in joined;
    }
    assert RStrip(joined) == [];
  }

  /** A character other than whitespace anywhere in the input keeps the
      result from being a lone line feed. */
  lemma NonSpaceSurvives(text: string, k: nat)
    requires k < |text| && !IsSpace(text[k])
    ensures Normalized(text) != "\n"
  {
    var c := text[k];
    var replaced := Replace(text, "\r\n", "\n");
    var lines := Lines(text);
    var out := RewriteLines(lines, false);
    var joined := Join(out, '\n');
    ReplaceKeeps(text, "\r\n", "\n", c);
    SplitFinds(replaced, '\n', c);
    var i :| 0 <= i < |lines| && c in lines[i];
    RewriteChars(lines, false);
    JoinContains(out, '\n', i, c);
    var m :| 0 <= m < |joined| && joined[m] == c;
  }

  /** Only an all-whitespace input normalizes to a lone line feed. */
  lemma WhitespaceOnly(text: string)
    ensures Normalized(text) == "\n" <==> AllSpace(text)
  {
    if AllSpace(text) {
      AllSpaceNormalized(text);
    } else {
      var k :| 0 <= k < |text| && !IsSpace(text[k]);
      NonSpaceSurvives(text, k);
    }
  }
}
