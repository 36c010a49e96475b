/** The Python 2 string operations the script relies on: `str.split()`,
    `str.splitlines()`, substring search and ASCII case folding. The script
    runs under Python 2, where these work on byte strings, so whitespace,
    line terminators and case are the ASCII ones. */
module Text {
  import opened Wrappers

  /** Whitespace for `str.split()`: space, tab, newline, carriage return,
      vertical tab and form feed. */
  predicate IsSpace(c: char)
  {
    c == ' ' || c == '\t' || c == '\n' || c == '\r' || c as int == 11 || c as int == 12
  }

  predicate NoSpace(s: string)
  {
    forall i :: 0 <= i < |s| ==> !IsSpace(s[i])
  }

  predicate AllSpace(s: string)
  {
    forall i :: 0 <= i < |s| ==> IsSpace(s[i])
  }

  /** Line terminators for `str.splitlines()` on a byte string. */
  predicate IsLineBreak(c: char)
  {
    c == '\n' || c == '\r'
  }

  predicate NoLineBreak(s: string)
  {
    forall i :: 0 <= i < |s| ==> !IsLineBreak(s[i])
  }

  predicate IsDigit(c: char)
  {
    '0' <= c <= '9'
  }

  // ---------------------------------------------------------------------
  // str.split()

  /** Length of the run of non-whitespace characters that starts `s`. */
  function WordLength(s: string): (n: nat)
    ensures n <= |s| && NoSpace(s[..n])
    ensures n < |s| ==> IsSpace(s[n])
  {
    if s == [] || IsSpace(s[0]) then 0
    else
      var m := WordLength(s[1..]);
      assert s[..1 + m] == [s[0]] + s[1..][..m];
      1 + m
  }

  /** `s.split()`: the maximal runs of non-whitespace characters, in order. */
  function Split(s: string): (words: seq<string>)
    ensures forall w :: w in words ==> w != [] && NoSpace(w)
    decreases |s|
  {
    if s == [] then []
    else if IsSpace(s[0]) then Split(s[1..])
    else
      var n := WordLength(s);
      [s[..n]] + Split(s[n..])
  }

  /** A line as a file holds it: each word followed by its own run of
      whitespace; the last run may be empty, the others may not. */
  function JoinGapped(words: seq<string>, gaps: seq<string>): string
    requires |gaps| == |words|
  {
    if words == [] then [] else words[0] + gaps[0] + JoinGapped(words[1..], gaps[1..])
  }

  /** The words and whitespace runs a line can be made of. */
  predicate Gapped(words: seq<string>, gaps: seq<string>)
  {
    |gaps| == |words| &&
    (forall i :: 0 <= i < |words| ==> words[i] != [] && NoSpace(words[i])) &&
    (forall i :: 0 <= i < |gaps| ==> AllSpace(gaps[i])) &&
    (forall i :: 0 <= i < |gaps| - 1 ==> gaps[i] != [])
  }

  lemma {:induction false} WordLengthOfWord(w: string, rest: string)
    requires NoSpace(w)
    requires rest == [] || IsSpace(rest[0])
    ensures WordLength(w + rest) == |w|
  {
    if w == [] {
      assert w + rest == rest;
    } else {
      assert (w + rest)[1..] == w[1..] + rest;
      WordLengthOfWord(w[1..], rest);
    }
  }

  /** Leading whitespace, of any kind and length, yields no word. */
  lemma {:induction false} SplitLeadingSpace(ws: string, s: string)
    requires AllSpace(ws)
    ensures Split(ws + s) == Split(s)
  {
    if ws == [] {
      assert ws + s == s;
    } else {
      assert (ws + s)[0] == ws[0];
      assert (ws + s)[1..] == ws[1..] + s;
      SplitLeadingSpace(ws[1..], s);
    }
  }

  /** A word followed by any run of whitespace comes off the front as one word. */
  lemma SplitWordThen(w: string, sep: string, s: string)
    requires w != [] && NoSpace(w)
    requires sep != [] && AllSpace(sep)
    ensures Split(w + sep + s) == [w] + Split(s)
  {
    var t := w + sep + s;
    assert t == w + (sep + s);
    assert (sep + s)[0] == sep[0];
    WordLengthOfWord(w, sep + s);
    assert t[..|w|] == w;
    assert t[|w|..] == sep + s;
    SplitLeadingSpace(sep, s);
  }

  /** A word followed only by whitespace, such as the "\n" a read line keeps, is one word. */
  lemma SplitLastWord(w: string, trail: string)
    requires w != [] && NoSpace(w)
    requires AllSpace(trail)
    ensures Split(w + trail) == [w]
  {
    if trail == [] {
      WordLengthOfWord(w, []);
      assert w + trail == w;
      assert w[..|w|] == w && w[|w|..] == [];
    } else {
      SplitWordThen(w, trail, []);
      assert w + trail + [] == w + trail;
    }
  }

  /** Splitting a line gives back its words, whatever whitespace leads,
      separates and follows them. */
  lemma {:induction false} SplitJoinGapped(lead: string, words: seq<string>, gaps: seq<string>)
    requires AllSpace(lead) && Gapped(words, gaps)
    ensures Split(lead + JoinGapped(words, gaps)) == words
    decreases |words|
  {
    SplitLeadingSpace(lead, JoinGapped(words, gaps));
    if words == [] {
    } else if |words| == 1 {
      assert JoinGapped(words, gaps) == words[0] + gaps[0];
      SplitLastWord(words[0], gaps[0]);
    } else {
      var rest := JoinGapped(words[1..], gaps[1..]);
      assert Gapped(words[1..], gaps[1..]) by {
        assert forall i :: 0 <= i < |words| - 1 ==> words[1..][i] == words[i + 1] && gaps[1..][i] == gaps[i + 1];
      }
      SplitWordThen(words[0], gaps[0], rest);
      SplitJoinGapped([], words[1..], gaps[1..]);
      assert [] + rest == rest;
      assert words == [words[0]] + words[1..];
    }
  }

  // ---------------------------------------------------------------------
  // str.splitlines()

  /** Length of the text before the first line terminator of `s`. */
  function LineLength(s: string): (n: nat)
    ensures n <= |s| && NoLineBreak(s[..n])
    ensures n < |s| ==> IsLineBreak(s[n])
  {
    if s == [] || IsLineBreak(s[0]) then 0
    else
      var m := LineLength(s[1..]);
      assert s[..1 + m] == [s[0]] + s[1..][..m];
      1 + m
  }

  /** Length of the terminator at index `n`: "\r\n" is one terminator. */
  function BreakLength(s: string, n: nat): nat
    requires n <= |s|
  {
    if n == |s| then 0
    else if s[n] == '\r' && n + 1 < |s| && s[n + 1] == '\n' then 2
    else 1
  }

  /** `s.splitlines()`: the text between terminators; a final terminator
      does not open an extra empty line. */
  function SplitLines(s: string): (lines: seq<string>)
    ensures forall l :: l in lines ==> NoLineBreak(l)
    ensures lines == [] <==> s == []
    decreases |s|
  {
    if s == [] then []
    else
      var n := LineLength(s);
      [s[..n]] + SplitLines(s[n + BreakLength(s, n)..])
  }

  predicate IsTerminator(t: string)
  {
    t == "\n" || t == "\r" || t == "\r\n"
  }

  /** Each line followed by the terminator `t`, as a shell or a file holds them. */
  function JoinLines(lines: seq<string>, t: string): string
  {
    if lines == [] then [] else lines[0] + t + JoinLines(lines[1..], t)
  }

  lemma {:induction false} LineLengthOfLine(l: string, rest: string)
    requires NoLineBreak(l)
    requires rest == [] || IsLineBreak(rest[0])
    ensures LineLength(l + rest) == |l|
  {
    if l == [] {
      assert l + rest == rest;
    } else {
      assert (l + rest)[1..] == l[1..] + rest;
      LineLengthOfLine(l[1..], rest);
    }
  }

  /** A run of terminated lines never starts with "\n" unless its terminator does. */
  lemma JoinLinesHead(lines: seq<string>, t: string)
    requires IsTerminator(t)
    requires forall l :: l in lines ==> NoLineBreak(l)
    requires JoinLines(lines, t) != []
    ensures JoinLines(lines, t)[0] == (if lines[0] == [] then t[0] else lines[0][0])
    ensures JoinLines(lines, t)[0] == '\n' ==> t == "\n"
  {
    assert lines[0] in lines;
  }

  lemma BreakLengthOfTerminator(l: string, t: string, rest: string)
    requires IsTerminator(t)
    requires t == "\r" && rest != [] ==> rest[0] != '\n'
    ensures BreakLength(l + t + rest, |l|) == |t|
  {
    var s := l + t + rest;
    assert s[|l|] == t[0];
    if t == "\r" && |l| + 1 < |s| {
      assert s[|l| + 1] == rest[0];
    }
    if t == "\r\n" {
      assert s[|l| + 1] == '\n';
    }
  }

  /** One terminated line comes off the front of the text as one element. */
  lemma SplitLinesStep(l: string, t: string, rest: string)
    requires NoLineBreak(l) && IsTerminator(t)
    requires t == "\r" && rest != [] ==> rest[0] != '\n'
    ensures SplitLines(l + t + rest) == [l] + SplitLines(rest)
  {
    var s := l + t + rest;
    assert s == l + (t + rest);
    LineLengthOfLine(l, t + rest);
    BreakLengthOfTerminator(l, t, rest);
    assert s[..|l|] == l;
    assert s[|l| + |t|..] == rest;
  }

  /** Terminated lines at the front of a text come off as those lines. */
  lemma {:induction false} SplitLinesJoinLinesThen(lines: seq<string>, t: string, rest: string)
    requires IsTerminator(t)
    requires forall l :: l in lines ==> NoLineBreak(l)
    requires t == "\r" && rest != [] ==> rest[0] != '\n'
    ensures SplitLines(JoinLines(lines, t) + rest) == lines + SplitLines(rest)
  {
    if lines == [] {
      assert JoinLines(lines, t) + rest == rest;
    } else {
      var l, tail := lines[0], JoinLines(lines[1..], t);
      var after := tail + rest;
      assert l in lines;
      assert forall v :: v in lines[1..] ==> v in lines;
      assert JoinLines(lines, t) == l + t + tail;
      assert JoinLines(lines, t) + rest == l + t + after;
      if t == "\r" && after != [] {
        if tail != [] {
          JoinLinesHead(lines[1..], t);
          assert after[0] == tail[0];
        } else {
          assert after == rest;
        }
      }
      calc {
        SplitLines(JoinLines(lines, t) + rest);
        SplitLines(l + t + after);
        { SplitLinesStep(l, t, after); }
        [l] + SplitLines(after);
        { SplitLinesJoinLinesThen(lines[1..], t, rest); }
        [l] + (lines[1..] + SplitLines(rest));
        { assert lines == [l] + lines[1..]; }
        lines + SplitLines(rest);
      }
    }
  }

  /** Splitting terminated lines gives the lines back, whichever of the three
      terminators was used. */
  lemma SplitLinesJoinLines(lines: seq<string>, t: string)
    requires IsTerminator(t)
    requires forall l :: l in lines ==> NoLineBreak(l)
    ensures SplitLines(JoinLines(lines, t)) == lines
  {
    SplitLinesJoinLinesThen(lines, t, []);
    assert JoinLines(lines, t) + [] == JoinLines(lines, t);
    assert lines + [] == lines;
  }

  /** A non-empty text without terminators is one line. */
  lemma SplitLinesOneLine(l: string)
    requires l != [] && NoLineBreak(l)
    ensures SplitLines(l) == [l]
  {
    LineLengthOfLine(l, []);
    assert l + [] == l;
    assert l[..|l|] == l && l[|l|..] == [];
  }

  // ---------------------------------------------------------------------
  // Searching

  /** `pat` occurs in `s` at index `k`. */
  predicate OccursAt(s: string, pat: string, k: nat)
  {
    k + |pat| <= |s| && s[k..k + |pat|] == pat
  }

  /** The first index at or after `from` where `pat` occurs in `s`. */
  function Find(s: string, pat: string, from: nat): (r: Option<nat>)
    ensures r.Some? ==> from <= r.value && OccursAt(s, pat, r.value)
    ensures forall k :: from <= k && (r.None? || k < r.value) ==> !OccursAt(s, pat, k)
    decreases |s| - from
  {
    if |s| < from + |pat| then None
    else if OccursAt(s, pat, from) then Some(from)
    else Find(s, pat, from + 1)
  }

  /** The text a regular expression's `.` can cover from index 0: everything
      before the first "\n". */
  function BeforeNewline(s: string): (r: string)
    ensures r <= s && '\n' !in r
    ensures |r| < |s| ==> s[|r|] == '\n'
  {
    if s == [] || s[0] == '\n' then [] else [s[0]] + BeforeNewline(s[1..])
  }

  /** ASCII lower case, as Python 2's case-insensitive matching of a byte string uses. */
  function LowerAscii(c: char): char
  {
    if 'A' <= c <= 'Z' then (c as int + 32) as char else c
  }

  function Lower(s: string): (r: string)
    ensures |r| == |s|
  {
    if s == [] then [] else [LowerAscii(s[0])] + Lower(s[1..])
  }

  /** The strings written one after another. */
  function Concat(parts: seq<string>): string
  {
    if parts == [] then [] else Concat(parts[..|parts| - 1]) + parts[|parts| - 1]
  }
}
