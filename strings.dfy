/**
 * The handful of Python `str` operations the converter uses, restricted to
 * ASCII: `isspace`, `strip`/`lstrip`/`rstrip`, `lower`, `startswith`,
 * `replace`, `split` on one character and `join` with one character, and the
 * code-point ordering `sorted` applies to strings.
 */
module Strings {

  /** `str.isspace` on the ASCII range: tab, line feed, vertical tab, form
      feed, carriage return, the four separators 0x1C..0x1F and space. */
  predicate IsSpace(c: char) {
    c == ' ' || c == '\t' || c == '\n' || c == '\r' || c == '\U{0B}' || c == '\U{0C}'
    || ('\U{1C}' <= c <= '\U{1F}')
  }

  predicate AllSpace(s: string) {
    forall i :: 0 <= i < |s| ==> IsSpace(s[i])
  }

  predicate StartsWith(s: string, prefix: string) {
    prefix <= s
  }

  /** `s.rstrip()`: the longest prefix of `s` whose removed tail is whitespace
      and that does not itself end in whitespace. */
  function RStrip(s: string): (r: string)
    ensures r <= s
    ensures AllSpace(s[|r|..])
    ensures r == [] || !IsSpace(r[|r| - 1])
    decreases |s|
  {
    if |s| > 0 && IsSpace(s[|s| - 1]) then RStrip(s[..|s| - 1]) else s
  }

  /** `s.lstrip()`: the longest suffix of `s` whose removed head is whitespace
      and that does not itself start with whitespace. */
  function LStrip(s: string): (r: string)
    ensures |r| <= |s| && r == s[|s| - |r|..]
    ensures AllSpace(s[..|s| - |r|])
    ensures r == [] || !IsSpace(r[0])
    decreases |s|
  {
    if |s| > 0 && IsSpace(s[0]) then LStrip(s[1..]) else s
  }

  /** `s.strip()` */
  function Strip(s: string): string {
    LStrip(RStrip(s))
  }

  lemma StripEmptyIffAllSpace(s: string)
    ensures Strip(s) == [] <==> AllSpace(s)
  {
    var r := RStrip(s);
    if Strip(s) == [] {
      assert AllSpace(r[..|r|]);
      forall i | 0 <= i < |s| ensures IsSpace(s[i]) {
        if i < |r| { assert r[..|r|][i] == s[i]; } else { assert s[|r|..][i - |r|] == s[i]; }
      }
    }
  }

  function LowerChar(c: char): char {
    if 'A' <= c <= 'Z' then (c as int + 32) as char else c
  }

  /** `s.lower()` on ASCII letters; every other character is kept. */
  function Lower(s: string): string {
    seq(|s|, i requires 0 <= i < |s| => LowerChar(s[i]))
  }

  /** `s.replace(pattern, replacement)`: a left-to-right scan that rewrites
      non-overlapping occurrences of `pattern`. */
  function Replace(s: string, pattern: string, replacement: string): string
    requires |pattern| > 0
    decreases |s|
  {
    if s == [] then []
    else if StartsWith(s, pattern) then replacement + Replace(s[|pattern|..], pattern, replacement)
    else [s[0]] + Replace(s[1..], pattern, replacement)
  }

  /** A pattern whose first character never occurs leaves the text as it is. */
  lemma {:induction false} ReplaceAbsent(s: string, pattern: string, replacement: string)
    requires |pattern| > 0 && pattern[0] !in s
    ensures Replace(s, pattern, replacement) == s
    decreases |s|
  {
    if s != [] {
      assert s[0] != pattern[0];
      assert forall c :: c in s[1..] ==> c in s;
      ReplaceAbsent(s[1..], pattern, replacement);
    }
  }

  /** Replacing one character by another rewrites exactly the positions that
      hold it. */
  lemma {:induction false} ReplaceCharAt(s: string, a: char, b: char)
    ensures |Replace(s, [a], [b])| == |s|
    ensures forall i :: 0 <= i < |s| ==> Replace(s, [a], [b])[i] == if s[i] == a then b else s[i]
    decreases |s|
  {
    if s != [] {
      ReplaceCharAt(s[1..], a, b);
      var r := Replace(s, [a], [b]);
      assert r == [if s[0] == a then b else s[0]] + Replace(s[1..], [a], [b]);
      forall i | 0 <= i < |s| ensures r[i] == if s[i] == a then b else s[i] {
        if i > 0 { assert s[1..][i - 1] == s[i]; }
      }
    }
  }

  /** A character that is neither in the pattern nor in the replacement
      survives `Replace` exactly when it was there before. */
  lemma {:induction false} ReplaceKeeps(s: string, pattern: string, replacement: string, c: char)
    requires |pattern| > 0 && c !in pattern && c !in replacement
    ensures c in Replace(s, pattern, replacement) <==> c in s
    decreases |s|
  {
    if s != [] {
      assert s == [s[0]] + s[1..];
      if StartsWith(s, pattern) {
        ReplaceKeeps(s[|pattern|..], pattern, replacement, c);
        assert s == pattern + s[|pattern|..];
      } else {
        ReplaceKeeps(s[1..], pattern, replacement, c);
      }
    }
  }

  /** Every character of the result comes from the text or the replacement. */
  lemma {:induction false} ReplaceChars(s: string, pattern: string, replacement: string)
    requires |pattern| > 0
    ensures forall c :: c in Replace(s, pattern, replacement) ==> c in s || c in replacement
    decreases |s|
  {
    if s != [] {
      if StartsWith(s, pattern) {
        ReplaceChars(s[|pattern|..], pattern, replacement);
        assert forall c :: c in s[|pattern|..] ==> c in s;
      } else {
        ReplaceChars(s[1..], pattern, replacement);
        assert forall c :: c in s[1..] ==> c in s;
      }
    }
  }

  /** `s.split(sep)` for a one-character separator; never empty. */
  function Split(s: string, sep: char): (pieces: seq<string>)
    ensures |pieces| > 0
    decreases |s|
  {
    if s == [] then [[]]
    else
      var init := Split(s[..|s| - 1], sep);
      var c := s[|s| - 1];
      if c == sep then init + [[]]
      else init[..|init| - 1] + [init[|init| - 1] + [c]]
  }

  /** No piece of a split holds the separator. */
  lemma {:induction false} SplitPiecesNoSep(s: string, sep: char)
    ensures forall i :: 0 <= i < |Split(s, sep)| ==> sep !in Split(s, sep)[i]
    decreases |s|
  {
    if s != [] {
      SplitPiecesNoSep(s[..|s| - 1], sep);
    }
  }

  /** `sep.join(pieces)` for a one-character separator. */
  function Join(pieces: seq<string>, sep: char): string
    decreases |pieces|
  {
    if |pieces| == 0 then []
    else if |pieces| == 1 then pieces[0]
    else Join(pieces[..|pieces| - 1], sep) + [sep] + pieces[|pieces| - 1]
  }

  /** Joining the pieces of a split gives the text back. */
  lemma {:induction false} JoinSplit(s: string, sep: char)
    ensures Join(Split(s, sep), sep) == s
    decreases |s|
  {
    if s != [] {
      var s' := s[..|s| - 1];
      var init := Split(s', sep);
      JoinSplit(s', sep);
      if s[|s| - 1] != sep {
        var n := |init|;
        var pieces := init[..n - 1] + [init[n - 1] + [s[|s| - 1]]];
        if n > 1 {
          assert pieces[..n - 1] == init[..n - 1];
        }
      }
      assert s == s' + [s[|s| - 1]];
    }
  }

  /** Text without the separator is a single piece. */
  lemma {:induction false} SplitNoSep(s: string, sep: char)
    requires sep !in s
    ensures Split(s, sep) == [s]
    decreases |s|
  {
    if s != [] {
      assert forall c :: c in s[..|s| - 1] ==> c in s;
      SplitNoSep(s[..|s| - 1], sep);
      assert s == s[..|s| - 1] + [s[|s| - 1]];
    }
  }

  /** The piece list after one more character, as `Split` builds it. */
  function SnocPieces(pieces: seq<string>, c: char, sep: char): seq<string>
    requires |pieces| > 0
  {
    if c == sep then pieces + [[]] else pieces[..|pieces| - 1] + [pieces[|pieces| - 1] + [c]]
  }

  /** Appending one character either opens a new piece or extends the last. */
  lemma SplitSnoc(s: string, c: char, sep: char)
    ensures Split(s + [c], sep) == SnocPieces(Split(s, sep), c, sep)
  {
    assert (s + [c])[..|s|] == s;
  }

  lemma SnocPiecesAppend(head: seq<string>, tail: seq<string>, c: char, sep: char)
    requires |tail| > 0
    ensures SnocPieces(head + tail, c, sep) == head + SnocPieces(tail, c, sep)
  {
    if c != sep {
      assert (head + tail)[..|head + tail| - 1] == head + tail[..|tail| - 1];
    }
  }

  /** Splitting distributes over one occurrence of the separator. */
  lemma {:induction false} SplitAt(a: string, b: string, sep: char)
    ensures Split(a + [sep] + b, sep) == Split(a, sep) + Split(b, sep)
    decreases |b|
  {
    if b == [] {
      SplitSnoc(a, sep, sep);
      assert a + [sep] + b == a + [sep];
    } else {
      var b' := b[..|b| - 1];
      var c := b[|b| - 1];
      var w := a + [sep] + b';
      SplitAt(a, b', sep);
      assert b == b' + [c];
      assert a + [sep] + b == w + [c];
      SplitSnoc(w, c, sep);
      SplitSnoc(b', c, sep);
      SnocPiecesAppend(Split(a, sep), Split(b', sep), c, sep);
    }
  }

  /** Splitting a join of separator-free pieces gives the pieces back. */
  lemma {:induction false} SplitJoin(pieces: seq<string>, sep: char)
    requires |pieces| > 0
    requires forall i :: 0 <= i < |pieces| ==> sep !in pieces[i]
    ensures Split(Join(pieces, sep), sep) == pieces
    decreases |pieces|
  {
    if |pieces| == 1 {
      SplitNoSep(pieces[0], sep);
    } else {
      var init := pieces[..|pieces| - 1];
      var last := pieces[|pieces| - 1];
      assert forall i :: 0 <= i < |init| ==> init[i] == pieces[i];
      SplitJoin(init, sep);
      var joined := Join(init, sep);
      assert Join(pieces, sep) == joined + [sep] + last;
      SplitAt(joined, last, sep);
      SplitNoSep(last, sep);
      assert pieces == init + [last];
    }
  }

  /** Every character of a piece comes from the text. */
  lemma {:induction false} SplitChars(s: string, sep: char)
    ensures forall i, c :: 0 <= i < |Split(s, sep)| && c in Split(s, sep)[i] ==> c in s
    decreases |s|
  {
    if s != [] {
      var s' := s[..|s| - 1];
      SplitChars(s', sep);
      assert forall c :: c in s' ==> c in s;
    }
  }

  /** A character other than the separator is in the text exactly when it is
      in one of the pieces. */
  lemma {:induction false} SplitFinds(s: string, sep: char, c: char)
    requires c != sep && c in s
    ensures exists i :: 0 <= i < |Split(s, sep)| && c in Split(s, sep)[i]
    decreases |s|
  {
    var s' := s[..|s| - 1];
    var init := Split(s', sep);
    var pieces := Split(s, sep);
    if s[|s| - 1] == c {
      assert c in pieces[|pieces| - 1];
    } else {
      assert s == s' + [s[|s| - 1]];
      assert c in s';
      SplitFinds(s', sep, c);
      var i :| 0 <= i < |init| && c in init[i];
      if s[|s| - 1] == sep || i < |init| - 1 {
        assert pieces[i] == init[i];
      } else {
        assert c in pieces[i];
      }
    }
  }

  /** Every character of a join is the separator or comes from a piece. */
  lemma {:induction false} JoinChars(pieces: seq<string>, sep: char)
    ensures forall c :: c in Join(pieces, sep) ==> c == sep || exists i :: 0 <= i < |pieces| && c in pieces[i]
    decreases |pieces|
  {
    if |pieces| > 1 {
      var init := pieces[..|pieces| - 1];
      JoinChars(init, sep);
      forall c | c in Join(pieces, sep) && c != sep
        ensures exists i :: 0 <= i < |pieces| && c in pieces[i]
      {
        if c in Join(init, sep) {
          var i :| 0 <= i < |init| && c in init[i];
          assert pieces[i] == init[i];
        } else {
          assert c in pieces[|pieces| - 1];
        }
      }
    }
  }

  /** Every character of every piece is in the join. */
  lemma {:induction false} JoinContains(pieces: seq<string>, sep: char, i: nat, c: char)
    requires i < |pieces| && c in pieces[i]
    ensures c in Join(pieces, sep)
    decreases |pieces|
  {
    if |pieces| > 1 && i < |pieces| - 1 {
      var init := pieces[..|pieces| - 1];
      assert init[i] == pieces[i];
      JoinContains(init, sep, i, c);
    }
  }

  /** Right-stripping ignores a whitespace tail. */
  lemma {:induction false} RStripSpaceTail(a: string, b: string)
    requires AllSpace(b)
    ensures RStrip(a + b) == RStrip(a)
    decreases |b|
  {
    if b == [] {
      assert a + b == a;
    } else {
      assert (a + b)[..|a + b| - 1] == a + b[..|b| - 1];
      RStripSpaceTail(a, b[..|b| - 1]);
    }
  }

  /** Right-stripping only touches a tail that holds something other than
      whitespace. */
  lemma {:induction false} RStripNonSpaceTail(a: string, b: string)
    requires !AllSpace(b)
    ensures RStrip(a + b) == a + RStrip(b)
    decreases |b|
  {
    if IsSpace(b[|b| - 1]) {
      var b' := b[..|b| - 1];
      assert (a + b)[..|a + b| - 1] == a + b';
      assert !AllSpace(b') by {
        var i :| 0 <= i < |b| && !IsSpace(b[i]);
        assert b'[i] == b[i];
      }
      RStripNonSpaceTail(a, b');
    }
  }

  /** The code-point ordering Python's `<` applies to strings. */
  predicate LexLess(a: string, b: string)
    decreases |a|
  {
    if a == [] then b != []
    else if b == [] then false
    else if a[0] != b[0] then a[0] < b[0]
    else LexLess(a[1..], b[1..])
  }

  lemma {:induction false} LexLessIrreflexive(a: string)
    ensures !LexLess(a, a)
    decreases |a|
  {
    if a != [] { LexLessIrreflexive(a[1..]); }
  }

  lemma {:induction false} LexLessTransitive(a: string, b: string, c: string)
    requires LexLess(a, b) && LexLess(b, c)
    ensures LexLess(a, c)
    decreases |a|
  {
    if a != [] && b != [] && c != [] && a[0] == b[0] == c[0] {
      LexLessTransitive(a[1..], b[1..], c[1..]);
    }
  }

  lemma {:induction false} LexLessTotal(a: string, b: string)
    requires a != b
    ensures LexLess(a, b) || LexLess(b, a)
    decreases |a|
  {
    if a != [] && b != [] && a[0] == b[0] {
      assert a == [a[0]] + a[1..] && b == [b[0]] + b[1..];
      LexLessTotal(a[1..], b[1..]);
    }
  }
}
