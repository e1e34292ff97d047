/** The string operations the ledger script relies on: `str.strip()`,
    `str.split(sep)`, `sep.join(parts)` and `file.readlines()`. */
module Strings {

  /** The characters Python's `str.isspace()` accepts, hence those
      `str.strip()` removes. */
  predicate IsSpace(c: char) {
    || c == ' ' || c == '\t' || c == '\n' || c == '\r'
    || c == '\U{B}' || c == '\U{C}'
    || ('\U{1C}' <= c <= '\U{1F}')
    || c == '\U{85}' || c == '\U{A0}' || c == '\U{1680}'
    || ('\U{2000}' <= c <= '\U{200A}')
    || c == '\U{2028}' || c == '\U{2029}' || c == '\U{202F}' || c == '\U{205F}' || c == '\U{3000}'
  }

  predicate AllSpace(s: string) {
    forall k :: 0 <= k < |s| ==> IsSpace(s[k])
  }

  /** Neither end of `s` is whitespace: `s` is what `strip()` leaves. */
  predicate Edgeless(s: string) {
    |s| == 0 || (!IsSpace(s[0]) && !IsSpace(s[|s| - 1]))
  }

  /** How many whitespace characters `s` starts with. */
  function LeadingSpace(s: string): (n: nat)
    ensures n <= |s|
    ensures forall k :: 0 <= k < n ==> IsSpace(s[k])
    ensures n < |s| ==> !IsSpace(s[n])
  {
    if |s| == 0 || !IsSpace(s[0]) then 0 else 1 + LeadingSpace(s[1..])
  }

  /** Where the trailing whitespace of `s` begins. */
  function TrailingSpace(s: string): (n: nat)
    ensures n <= |s|
    ensures forall k :: n <= k < |s| ==> IsSpace(s[k])
    ensures n > 0 ==> !IsSpace(s[n - 1])
  {
    if |s| == 0 || !IsSpace(s[|s| - 1]) then |s| else TrailingSpace(s[..|s| - 1])
  }

  /** Python's `s.strip()`: the largest slice of `s` that neither starts
      nor ends with whitespace, obtained by cutting whitespace only. */
  function Strip(s: string): (r: string)
    ensures Edgeless(r)
    ensures exists i :: 0 <= i <= |s| - |r| && r == s[i..i + |r|]
                          && AllSpace(s[..i]) && AllSpace(s[i + |r|..])
  {
    var i := LeadingSpace(s);
    var j := i + TrailingSpace(s[i..]);
    assert AllSpace(s[..i]) by {
      forall k | 0 <= k < i ensures IsSpace(s[..i][k]) {
        assert s[..i][k] == s[k];
      }
    }
    assert AllSpace(s[j..]) by {
      forall k | 0 <= k < |s| - j ensures IsSpace(s[j..][k]) {
        assert s[j..][k] == s[i..][j - i + k];
      }
    }
    assert s[i..][..j - i] == s[i..j];
    s[i..j]
  }

  /** A string with no surrounding whitespace is left alone by `strip()`. */
  lemma {:induction false} StripEdgeless(s: string)
    requires Edgeless(s)
    ensures Strip(s) == s
  {
    assert LeadingSpace(s) == 0;
    assert s[0..] == s;
    assert TrailingSpace(s) == |s|;
    assert s[0..|s|] == s;
  }

  /** Stripping a string that has no surrounding whitespace, followed by
      a line terminator, gives back the string: how a written line reads. */
  lemma {:induction false} StripLine(s: string)
    requires Edgeless(s)
    ensures Strip(s + "\n") == s
  {
    var t := s + "\n";
    if |s| == 0 {
      assert LeadingSpace(t) == 1;
    } else {
      assert LeadingSpace(t) == 0;
      assert t[0..] == t;
      assert t[..|t| - 1] == s;
      assert TrailingSpace(t) == TrailingSpace(s) == |s|;
      assert t[0..|s|] == s;
    }
  }

  /** Number of occurrences of `c` in `s`. */
  function Count(s: string, c: char): nat {
    if |s| == 0 then 0 else (if s[0] == c then 1 else 0) + Count(s[1..], c)
  }

  /** Python's `sep.join(parts)`. */
  function Join(parts: seq<string>, sep: char): string {
    if |parts| == 0 then ""
    else if |parts| == 1 then parts[0]
    else parts[0] + [sep] + Join(parts[1..], sep)
  }

  /** Python's `s.split(sep)` for a one-character separator: the pieces
      between separators, in order; there is always at least one. */
  function Split(s: string, sep: char): (parts: seq<string>)
    ensures |parts| == Count(s, sep) + 1
    ensures forall i :: 0 <= i < |parts| ==> sep !in parts[i]
    ensures Join(parts, sep) == s
  {
    if |s| == 0 then [""]
    else
      var rest := Split(s[1..], sep);
      if s[0] == sep then
        assert [s[0]] + s[1..] == s;
        [""] + rest
      else
        var parts := [[s[0]] + rest[0]] + rest[1..];
        assert |rest| > 1 ==> Join(rest, sep) == rest[0] + [sep] + Join(rest[1..], sep);
        assert parts[1..] == rest[1..];
        assert [s[0]] + s[1..] == s;
        parts
  }

  lemma {:induction false} SplitNoSeparator(s: string, sep: char)
    requires sep !in s
    ensures Split(s, sep) == [s]
  {
    if |s| > 0 {
      SplitNoSeparator(s[1..], sep);
      assert [s[0]] + s[1..] == s;
    }
  }

  lemma {:induction false} SplitFirstPiece(a: string, sep: char, b: string)
    requires sep !in a
    ensures Split(a + [sep] + b, sep) == [a] + Split(b, sep)
  {
    if |a| == 0 {
      assert a + [sep] + b == [sep] + b;
      assert ([sep] + b)[1..] == b;
    } else {
      SplitFirstPiece(a[1..], sep, b);
      assert (a + [sep] + b)[1..] == a[1..] + [sep] + b;
      assert [a[0]] + a[1..] == a;
    }
  }

  /** Splitting a joined list gives the list back when no piece holds the
      separator: the split pieces are the only ones that join to `s`. */
  lemma {:induction false} SplitJoin(parts: seq<string>, sep: char)
    requires |parts| >= 1
    requires forall i :: 0 <= i < |parts| ==> sep !in parts[i]
    ensures Split(Join(parts, sep), sep) == parts
  {
    if |parts| == 1 {
      SplitNoSeparator(parts[0], sep);
    } else {
      SplitJoin(parts[1..], sep);
      SplitFirstPiece(parts[0], sep, Join(parts[1..], sep));
      assert [parts[0]] + parts[1..] == parts;
    }
  }

  /** The text a sequence of lines writes out. */
  function Concat(lines: seq<string>): string {
    if |lines| == 0 then "" else lines[0] + Concat(lines[1..])
  }

  /** Position of the first `c` in `s`, or `|s|` when there is none. */
  function IndexOf<T(==)>(s: seq<T>, c: T): (i: nat)
    ensures i <= |s|
    ensures i < |s| ==> s[i] == c
    ensures c !in s[..i]
  {
    if |s| == 0 then 0
    else if s[0] == c then 0
    else
      var i := 1 + IndexOf(s[1..], c);
      assert s[..i] == [s[0]] + s[1..][..i - 1];
      i
  }

  /** A line as `readlines()` returns it, not the last one of a file
      that ends without a newline: it ends in its only newline. */
  predicate IsLine(l: string) {
    |l| >= 1 && l[|l| - 1] == '\n' && '\n' !in l[..|l| - 1]
  }

  /** Python's `f.readlines()`: the text cut after every newline, each
      line keeping its newline; a last line without one is kept too, and
      holds no newline before its final character. */
  function ReadLines(text: string): (lines: seq<string>)
    ensures Concat(lines) == text
    ensures forall i :: 0 <= i < |lines| ==> |lines[i]| > 0
    ensures forall i :: 0 <= i < |lines| - 1 ==> IsLine(lines[i])
    ensures |lines| > 0 ==> '\n' !in lines[|lines| - 1][..|lines[|lines| - 1]| - 1]
    decreases |text|
  {
    if |text| == 0 then []
    else
      var i := IndexOf(text, '\n');
      if i == |text| then
        assert text[..|text| - 1] == text[..i][..|text| - 1];
        [text]
      else
        var rest := ReadLines(text[i + 1..]);
        var lines := [text[..i + 1]] + rest;
        assert text[..i + 1][..i] == text[..i];
        assert lines[1..] == rest;
        assert lines[|lines| - 1] == if |rest| > 0 then rest[|rest| - 1] else text[..i + 1];
        assert text[..i + 1] + text[i + 1..] == text;
        lines
  }

  /** Reading back text written as whole lines gives those lines. */
  lemma {:induction false} ReadLinesConcat(lines: seq<string>)
    requires forall i :: 0 <= i < |lines| ==> IsLine(lines[i])
    ensures ReadLines(Concat(lines)) == lines
  {
    if |lines| > 0 {
      var l := lines[0];
      var text := Concat(lines);
      ReadLinesConcat(lines[1..]);
      assert text == l + Concat(lines[1..]);
      assert text[..|l| - 1] == l[..|l| - 1];
      assert text[|l| - 1] == '\n';
      IndexOfFirst(text, '\n', |l| - 1);
      assert text[..|l|] == l;
      assert text[|l|..] == Concat(lines[1..]);
      assert [l] + lines[1..] == lines;
    }
  }

  lemma {:induction false} IndexOfFirst<T>(s: seq<T>, c: T, i: nat)
    requires i < |s| && s[i] == c && c !in s[..i]
    ensures IndexOf(s, c) == i
  {
    if i > 0 {
      assert s[0] == s[..i][0];
      assert s[1..][..i - 1] == s[1..i];
      IndexOfFirst(s[1..], c, i - 1);
    }
  }
}
