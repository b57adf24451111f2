/**
 * The pieces of Python's `str` and text-file behaviour that the checksum tool
 * relies on: `isspace`, `rstrip()`, `strip()`, `split(sep)`, `split(maxsplit=1)`,
 * universal-newline translation on reading, and iteration over the lines of a
 * text file.
 */
module PyStr {

  /** `c.isspace()`: the characters that `strip()`, `rstrip()` and `split()`
      without arguments treat as whitespace. */
  predicate IsSpace(c: char) {
    || c == ' '
    || '\t' <= c <= '\r'
    || '\U{1c}' <= c <= '\U{1f}'
    || c == '\U{85}' || c == '\U{a0}' || c == '\U{1680}'
    || '\U{2000}' <= c <= '\U{200a}'
    || c == '\U{2028}' || c == '\U{2029}' || c == '\U{202f}' || c == '\U{205f}'
    || c == '\U{3000}'
  }

  predicate AllSpace(s: string) {
    forall i :: 0 <= i < |s| ==> IsSpace(s[i])
  }

  predicate NoSpace(s: string) {
    forall i :: 0 <= i < |s| ==> !IsSpace(s[i])
  }

  /** `s.rstrip()` */
  function RStrip(s: string): string
    decreases |s|
  {
    if s != [] && IsSpace(s[|s| - 1]) then RStrip(s[..|s| - 1]) else s
  }

  /** `s.rstrip()` is `s` without its longest whitespace suffix: a prefix of
      `s` that is followed only by whitespace and does not end in whitespace. */
  lemma {:induction false} RStripSpec(s: string)
    ensures RStrip(s) <= s
    ensures AllSpace(s[|RStrip(s)|..])
    ensures RStrip(s) == [] || !IsSpace(RStrip(s)[|RStrip(s)| - 1])
    decreases |s|
  {
    if s != [] && IsSpace(s[|s| - 1]) {
      var t := s[..|s| - 1];
      RStripSpec(t);
      var r := RStrip(t);
      assert s[|r|..] == t[|r|..] + [s[|s| - 1]];
    }
  }

  /** The contract of RStrip determines its value. */
  lemma {:induction false} RStripAt(s: string, n: nat)
    requires n <= |s| && AllSpace(s[n..])
    requires n == 0 || !IsSpace(s[n - 1])
    ensures RStrip(s) == s[..n]
    decreases |s|
  {
    if n < |s| {
      assert s[|s| - 1] == s[n..][|s| - 1 - n];
      assert s[..|s| - 1][n..] == s[n..][..|s| - 1 - n];
      assert s[..|s| - 1][..n] == s[..n];
      RStripAt(s[..|s| - 1], n);
    }
  }

  /** Length of the whitespace run that `s` starts with. */
  function SpaceRun(s: string): (n: nat)
    ensures n <= |s|
    decreases |s|
  {
    if s != [] && IsSpace(s[0]) then SpaceRun(s[1..]) + 1 else 0
  }

  /** SpaceRun stops at the first character that is not whitespace. */
  lemma {:induction false} SpaceRunSpec(s: string)
    ensures AllSpace(s[..SpaceRun(s)])
    ensures SpaceRun(s) < |s| ==> !IsSpace(s[SpaceRun(s)])
    decreases |s|
  {
    if s != [] && IsSpace(s[0]) {
      SpaceRunSpec(s[1..]);
      var n := SpaceRun(s[1..]);
      assert s[..n + 1] == [s[0]] + s[1..][..n];
    }
  }

  /** Length of the non-whitespace run that `s` starts with. */
  function TokenRun(s: string): (n: nat)
    ensures n <= |s|
    decreases |s|
  {
    if s != [] && !IsSpace(s[0]) then TokenRun(s[1..]) + 1 else 0
  }

  /** TokenRun stops at the first whitespace character. */
  lemma {:induction false} TokenRunSpec(s: string)
    ensures NoSpace(s[..TokenRun(s)])
    ensures TokenRun(s) < |s| ==> IsSpace(s[TokenRun(s)])
    decreases |s|
  {
    if s != [] && !IsSpace(s[0]) {
      TokenRunSpec(s[1..]);
      var n := TokenRun(s[1..]);
      assert s[..n + 1] == [s[0]] + s[1..][..n];
    }
  }

  /** `s.strip()` */
  function Strip(s: string): string {
    var t := RStrip(s);
    t[SpaceRun(t)..]
  }

  /** `s.strip()` is empty exactly when `s` is all whitespace, and otherwise
      neither starts nor ends with whitespace. */
  lemma StripSpec(s: string)
    ensures Strip(s) == [] <==> AllSpace(s)
    ensures Strip(s) != [] ==> !IsSpace(Strip(s)[0]) && !IsSpace(Strip(s)[|Strip(s)| - 1])
  {
    var t := RStrip(s);
    RStripSpec(s);
    SpaceRunSpec(t);
    assert AllSpace(t) && AllSpace(s[|t|..]) ==> AllSpace(s) by {
      if AllSpace(t) && AllSpace(s[|t|..]) {
        forall i | 0 <= i < |s| ensures IsSpace(s[i]) {
          if i >= |t| { assert s[i] == s[|t|..][i - |t|]; }
        }
      }
    }
    assert t != [] ==> !AllSpace(s) by {
      if t != [] { assert !IsSpace(s[|t| - 1]); }
    }
  }

  /** `s.split(maxsplit=1)` */
  function SplitWhitespaceOnce(s: string): seq<string> {
    var i := SpaceRun(s);
    if i == |s| then [] else FieldsFrom(s[i..])
  }

  /** The fields of a string that starts with a non-whitespace character: its
      first token, then the rest from the next non-whitespace character if
      there is one. */
  function FieldsFrom(t: string): seq<string> {
    var j := TokenRun(t);
    var k := j + SpaceRun(t[j..]);
    if k == |t| then [t[..j]] else [t[..j], t[k..]]
  }

  /** `s.split(maxsplit=1)` gives nothing for an all-whitespace `s`, and
      otherwise its first whitespace-delimited token and, when anything but
      whitespace follows it, the rest from the next non-whitespace character. */
  lemma SplitWhitespaceOnceSpec(s: string)
    ensures |SplitWhitespaceOnce(s)| <= 2
    ensures SplitWhitespaceOnce(s) == [] <==> AllSpace(s)
    ensures SplitWhitespaceOnce(s) != [] ==>
      SplitWhitespaceOnce(s)[0] != [] && NoSpace(SplitWhitespaceOnce(s)[0])
    ensures |SplitWhitespaceOnce(s)| == 2 ==>
      SplitWhitespaceOnce(s)[1] != [] && !IsSpace(SplitWhitespaceOnce(s)[1][0])
  {
    var i := SpaceRun(s);
    SpaceRunSpec(s);
    if i == |s| {
      assert s[..i] == s;
    } else {
      assert !AllSpace(s) by { assert !IsSpace(s[i]); }
      assert s[i..][0] == s[i];
      FieldsFromSpec(s[i..]);
    }
  }

  /** The fields of a string that starts with a non-whitespace character. */
  lemma FieldsFromSpec(t: string)
    requires t != [] && !IsSpace(t[0])
    ensures var r := FieldsFrom(t);
      1 <= |r| <= 2 && r[0] != [] && NoSpace(r[0]) &&
      (|r| == 2 ==> r[1] != [] && !IsSpace(r[1][0]))
  {
    TokenRunSpec(t);
    NextField(t, TokenRun(t));
  }

  /** What follows the whitespace after the first token starts with a
      non-whitespace character. */
  lemma NextField(s: string, j: nat)
    requires j <= |s|
    ensures var k := j + SpaceRun(s[j..]);
      k < |s| ==> !IsSpace(s[k..][0])
  {
    var k := j + SpaceRun(s[j..]);
    SpaceRunSpec(s[j..]);
    if k < |s| {
      assert s[k..][0] == s[j..][k - j];
    }
  }

  /** Index of the first `c` in `s`, or `|s|` when `s` has none. */
  function IndexOf(s: string, c: char): (n: nat)
    ensures n <= |s|
    ensures n < |s| ==> s[n] == c
    decreases |s|
  {
    if s == [] || s[0] == c then 0 else IndexOf(s[1..], c) + 1
  }

  /** No `c` comes before IndexOf(s, c). */
  lemma {:induction false} IndexOfSpec(s: string, c: char)
    ensures c !in s[..IndexOf(s, c)]
    decreases |s|
  {
    if s != [] && s[0] != c {
      var n := IndexOf(s[1..], c);
      IndexOfSpec(s[1..], c);
      assert s[..n + 1] == [s[0]] + s[1..][..n];
    }
  }

  /** The contract of IndexOf determines its value. */
  lemma {:induction false} IndexOfAt(s: string, c: char, n: nat)
    requires n <= |s| && c !in s[..n]
    requires n < |s| ==> s[n] == c
    ensures IndexOf(s, c) == n
    decreases n
  {
    if n > 0 {
      assert s[0] in s[..n];
      assert s[1..][..n - 1] == s[..n][1..];
      IndexOfAt(s[1..], c, n - 1);
    }
  }

  /** `sep.join(fields)` */
  function Join(fields: seq<string>, sep: char): string
    decreases |fields|
  {
    if |fields| == 0 then []
    else if |fields| == 1 then fields[0]
    else fields[0] + [sep] + Join(fields[1..], sep)
  }

  /** `s.split(sep)` with a one-character separator */
  function Split(s: string, sep: char): seq<string>
    decreases |s|
  {
    var n := IndexOf(s, sep);
    if n == |s| then [s] else [s[..n]] + Split(s[n + 1..], sep)
  }

  /** `s.split(sep)` gives one more piece than `s` has separators. */
  lemma {:induction false} SplitCount(s: string, sep: char)
    ensures |Split(s, sep)| == multiset(s)[sep] + 1
    decreases |s|
  {
    var n := IndexOf(s, sep);
    IndexOfSpec(s, sep);
    if n == |s| {
      assert s[..n] == s;
    } else {
      SplitCount(s[n + 1..], sep);
      CountAround(s, n, sep);
      assert multiset(s[..n])[sep] == 0;
    }
  }

  /** Occurrences of `c` before, at and after position `n`. */
  lemma CountAround(s: string, n: nat, c: char)
    requires n < |s|
    ensures multiset(s)[c] ==
      multiset(s[..n])[c] + (if s[n] == c then 1 else 0) + multiset(s[n + 1..])[c]
  {
    assert s == s[..n] + [s[n]] + s[n + 1..];
  }

  /** The pieces of `s.split(sep)` hold no separator, and joining them with
      the separator gives `s` back. */
  lemma {:induction false} SplitJoin(s: string, sep: char)
    ensures forall i :: 0 <= i < |Split(s, sep)| ==> sep !in Split(s, sep)[i]
    ensures Join(Split(s, sep), sep) == s
    decreases |s|
  {
    var n := IndexOf(s, sep);
    IndexOfSpec(s, sep);
    if n == |s| {
      assert s[..n] == s;
    } else {
      var rest := Split(s[n + 1..], sep);
      SplitJoin(s[n + 1..], sep);
      var r := Split(s, sep);
      assert r == [s[..n]] + rest;
      assert |rest| >= 1;
      forall i | 0 <= i < |r| ensures sep !in r[i] {
        if i > 0 { assert r[i] == rest[i - 1]; }
      }
      assert r[1..] == rest;
      assert Join(r, sep) == s[..n] + [sep] + Join(rest, sep);
      assert s == s[..n] + [sep] + s[n + 1..];
    }
  }

  /** The two halves of a split with one separator. */
  lemma SplitPair(a: string, b: string, sep: char)
    requires sep !in a && sep !in b
    ensures Split(a + [sep] + b, sep) == [a, b]
  {
    var s := a + [sep] + b;
    assert s[..|a|] == a;
    IndexOfAt(s, sep, |a|);
    assert s[|a| + 1..] == b;
    assert b[..|b|] == b;
    IndexOfAt(b, sep, |b|);
  }

  /** The concatenation of a sequence of strings. */
  function Concat(ls: seq<string>): string
    decreases |ls|
  {
    if ls == [] then [] else ls[0] + Concat(ls[1..])
  }

  lemma ConcatCons(line: string, rest: seq<string>)
    ensures Concat([line] + rest) == line + Concat(rest)
  {
    assert ([line] + rest)[1..] == rest;
  }

  /** Iterating over a file opened in text mode */
  function Lines(t: string): seq<string>
    decreases |t|
  {
    if t == [] then []
    else
      var n := IndexOf(t, '\n');
      if n == |t| then [t] else [t[..n + 1]] + Lines(t[n + 1..])
  }

  /** Iterating over a text file cuts the text after every `'\n'`: the lines
      put together give the text, each line keeps its `'\n'`, and only the
      last line may lack one. */
  lemma LinesSpec(t: string)
    ensures Concat(Lines(t)) == t
    ensures forall i :: 0 <= i < |Lines(t)| ==>
      Lines(t)[i] != [] && '\n' !in Lines(t)[i][..|Lines(t)[i]| - 1]
    ensures forall i :: 0 <= i < |Lines(t)| - 1 ==> Lines(t)[i][|Lines(t)[i]| - 1] == '\n'
  {
    LinesConcat(t);
    LinesShape(t);
  }

  /** The lines put together give the text back. */
  lemma {:induction false} LinesConcat(t: string)
    ensures Concat(Lines(t)) == t
    decreases |t|
  {
    if t != [] {
      var n := IndexOf(t, '\n');
      if n == |t| {
        assert Concat([t]) == t + Concat([]);
      } else {
        LinesConcat(t[n + 1..]);
        ConcatCons(t[..n + 1], Lines(t[n + 1..]));
        assert t[..n + 1] + t[n + 1..] == t;
      }
    }
  }

  /** Every line is non-empty, has `'\n'` at most as its last character,
      and all but the last line end in `'\n'`. */
  lemma {:induction false} LinesShape(t: string)
    ensures forall i :: 0 <= i < |Lines(t)| ==>
      Lines(t)[i] != [] && '\n' !in Lines(t)[i][..|Lines(t)[i]| - 1]
    ensures forall i :: 0 <= i < |Lines(t)| - 1 ==> Lines(t)[i][|Lines(t)[i]| - 1] == '\n'
    decreases |t|
  {
    if t != [] {
      var n := IndexOf(t, '\n');
      if n == |t| {
        LastLine(t);
      } else {
        NextLine(t, n);
        IndexOfSpec(t, '\n');
        FirstLine(t, n);
        LinesShape(t[n + 1..]);
        ShapeCons(t[..n + 1], Lines(t[n + 1..]));
      }
    }
  }

  /** Text without `'\n'` is one line. */
  lemma LastLine(t: string)
    requires t != [] && IndexOf(t, '\n') == |t|
    ensures Lines(t) == [t] && '\n' !in t[..|t| - 1]
  {
    IndexOfSpec(t, '\n');
    assert t[..|t| - 1] <= t[..|t|];
  }

  /** The first line runs up to and including the first `'\n'`. */
  lemma NextLine(t: string, n: nat)
    requires n == IndexOf(t, '\n') < |t|
    ensures Lines(t) == [t[..n + 1]] + Lines(t[n + 1..])
  {
  }

  /** A prefix that ends at the first `'\n'` holds no other. */
  lemma FirstLine(t: string, n: nat)
    requires n < |t| && '\n' !in t[..n] && t[n] == '\n'
    ensures var line := t[..n + 1];
      '\n' !in line[..|line| - 1] && line[|line| - 1] == '\n'
  {
    assert t[..n + 1][..n] == t[..n];
  }

  /** A line ending at its only `'\n'` can go in front of well-shaped lines. */
  lemma ShapeCons(line: string, rest: seq<string>)
    requires line != [] && '\n' !in line[..|line| - 1] && line[|line| - 1] == '\n'
    requires forall i :: 0 <= i < |rest| ==> rest[i] != [] && '\n' !in rest[i][..|rest[i]| - 1]
    requires forall i :: 0 <= i < |rest| - 1 ==> rest[i][|rest[i]| - 1] == '\n'
    ensures var ls := [line] + rest;
      && (forall i :: 0 <= i < |ls| ==> ls[i] != [] && '\n' !in ls[i][..|ls[i]| - 1])
      && (forall i :: 0 <= i < |ls| - 1 ==> ls[i][|ls[i]| - 1] == '\n')
  {
    var ls := [line] + rest;
    assert forall i :: 1 <= i < |ls| ==> ls[i] == rest[i - 1];
  }

  /** A line that ends at its only `'\n'` is the first line of the text. */
  lemma LinesCons(line: string, rest: string)
    requires '\n' !in line
    ensures Lines(line + "\n" + rest) == [line + "\n"] + Lines(rest)
  {
    var t := line + "\n" + rest;
    assert t[..|line|] == line;
    IndexOfAt(t, '\n', |line|);
    assert t[..|line| + 1] == line + "\n";
    assert t[|line| + 1..] == rest;
  }

  /** No line has a character the text does not have. */
  lemma {:induction false} LinesAvoid(t: string, c: char)
    requires c !in t
    ensures forall i :: 0 <= i < |Lines(t)| ==> c !in Lines(t)[i]
    decreases |t|
  {
    if t != [] {
      var n := IndexOf(t, '\n');
      if n < |t| {
        LinesAvoid(t[n + 1..], c);
        assert Lines(t) == [t[..n + 1]] + Lines(t[n + 1..]);
        forall i | 0 <= i < |Lines(t)| ensures c !in Lines(t)[i] {
          if i > 0 { assert Lines(t)[i] == Lines(t[n + 1..])[i - 1]; }
        }
      }
    }
  }

  /** Universal-newline translation when a file is read in text mode:
      `"\r\n"` and a lone `'\r'` both become `'\n'`. */
  function UniversalNewlines(t: string): (r: string)
    ensures '\r' !in r
    ensures '\r' !in t ==> r == t
    decreases |t|
  {
    if t == [] then []
    else if t[0] == '\r' then
      if |t| > 1 && t[1] == '\n' then "\n" + UniversalNewlines(t[2..])
      else "\n" + UniversalNewlines(t[1..])
    else
      var rest := UniversalNewlines(t[1..]);
      assert t == [t[0]] + t[1..];
      [t[0]] + rest
  }

  /** Text without `'\r'` in front of the rest is read unchanged. */
  lemma {:induction false} UniversalNewlinesKeeps(a: string, u: string)
    requires '\r' !in a
    ensures UniversalNewlines(a + u) == a + UniversalNewlines(u)
    decreases |a|
  {
    var t := a + u;
    if a == [] {
      assert t == u;
    } else {
      assert t[0] == a[0] != '\r';
      assert t[1..] == a[1..] + u;
      assert '\r' !in a[1..] by { assert forall x :: x in a[1..] ==> x in a; }
      var r := UniversalNewlines(u);
      calc {
        UniversalNewlines(t);
        [a[0]] + UniversalNewlines(a[1..] + u);
        { UniversalNewlinesKeeps(a[1..], u); }
        [a[0]] + (a[1..] + r);
        { assert a == [a[0]] + a[1..]; }
        a + r;
      }
    }
  }

  /** A `"\r\n"` line end is read as one `'\n'`. */
  lemma UniversalNewlinesCRLF(a: string, b: string)
    requires '\r' !in a
    ensures UniversalNewlines(a + "\r\n" + b) == a + "\n" + UniversalNewlines(b)
  {
    var u := "\r\n" + b;
    calc {
      UniversalNewlines(a + "\r\n" + b);
      { assert a + "\r\n" + b == a + u; }
      UniversalNewlines(a + u);
      { UniversalNewlinesKeeps(a, u); }
      a + UniversalNewlines(u);
      { assert u[0] == '\r' && u[1] == '\n' && u[2..] == b; }
      a + ("\n" + UniversalNewlines(b));
    }
  }

  /** A lone `'\r'`, one not followed by `'\n'`, is read as `'\n'`. */
  lemma UniversalNewlinesCR(a: string, b: string)
    requires '\r' !in a && (b == [] || b[0] != '\n')
    ensures UniversalNewlines(a + "\r" + b) == a + "\n" + UniversalNewlines(b)
  {
    var u := "\r" + b;
    calc {
      UniversalNewlines(a + "\r" + b);
      { assert a + "\r" + b == a + u; }
      UniversalNewlines(a + u);
      { UniversalNewlinesKeeps(a, u); }
      a + UniversalNewlines(u);
      { assert u[0] == '\r' && u[1..] == b && (|u| > 1 ==> u[1] == b[0]); }
      a + ("\n" + UniversalNewlines(b));
    }
  }
}
