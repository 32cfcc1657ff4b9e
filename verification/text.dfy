/** Python 2 string helpers the version file parser relies on:
    `str.strip()`, `str.split()` with no separator, and `'%d' % n`. */
module Text {
  import opened Seqs

  /** Python 2 `str` whitespace: space, tab, newline, carriage return,
      vertical tab and form feed. */
  predicate IsSpace(c: char) {
    c == ' ' || c == '\t' || c == '\n' || c == '\r' || c == '\U{000B}' || c == '\U{000C}'
  }

  predicate NotSpace(c: char) { !IsSpace(c) }

  predicate NoSpace(s: string) {
    forall i :: 0 <= i < |s| ==> !IsSpace(s[i])
  }

  /** Length of the run of non-whitespace characters `s` starts with. */
  function WordLen(s: string): (n: nat)
    ensures n <= |s|
    ensures forall i :: 0 <= i < n ==> !IsSpace(s[i])
    ensures n == |s| || IsSpace(s[n])
  {
    if |s| == 0 || IsSpace(s[0]) then 0 else 1 + WordLen(s[1..])
  }

  /** `s.split()`: the maximal runs of non-whitespace characters, in
      order; leading, trailing and repeated whitespace yield no empty
      fields. */
  function Words(s: string): (r: seq<string>)
    decreases |s|
    ensures forall i :: 0 <= i < |r| ==> |r[i]| > 0 && NoSpace(r[i])
  {
    if |s| == 0 then []
    else if IsSpace(s[0]) then Words(s[1..])
    else
      var n := WordLen(s);
      [s[..n]] + Words(s[n..])
  }

  /** The fields written one after another. */
  function Flatten(ws: seq<string>): string {
    if |ws| == 0 then [] else ws[0] + Flatten(ws[1..])
  }

  /** Splitting loses exactly the whitespace: the fields hold every other
      character of `s`, in order. */
  lemma {:induction false} WordsKeepText(s: string)
    ensures Flatten(Words(s)) == Filter(s, NotSpace)
    decreases |s|
  {
    if |s| == 0 {
    } else if IsSpace(s[0]) {
      WordsKeepText(s[1..]);
    } else {
      var n := WordLen(s);
      assert s == s[..n] + s[n..];
      FilterConcat(s[..n], s[n..], NotSpace);
      FilterAll(s[..n], NotSpace);
      WordsKeepText(s[n..]);
    }
  }

  /** `s.lstrip()`: drops the leading whitespace and nothing else. */
  function LStrip(s: string): (r: string)
    ensures |r| <= |s| && r == s[|s| - |r|..]
    ensures forall i :: 0 <= i < |s| - |r| ==> IsSpace(s[i])
    ensures r == [] || !IsSpace(r[0])
  {
    if |s| > 0 && IsSpace(s[0]) then LStrip(s[1..]) else s
  }

  /** `s.rstrip()`: drops the trailing whitespace and nothing else. */
  function RStrip(s: string): (r: string)
    ensures |r| <= |s| && r == s[..|r|]
    ensures forall i :: |r| <= i < |s| ==> IsSpace(s[i])
    ensures r == [] || !IsSpace(r[|r| - 1])
  {
    if |s| > 0 && IsSpace(s[|s| - 1]) then RStrip(s[..|s| - 1]) else s
  }

  /** `s.strip()`. */
  function Strip(s: string): (r: string)
    ensures r == [] || (!IsSpace(r[0]) && !IsSpace(r[|r| - 1]))
  {
    RStrip(LStrip(s))
  }

  /** Dropping a whitespace-only part keeps the rest's characters. */
  lemma DropSpaces(a: string, b: string)
    requires forall i :: 0 <= i < |a| ==> IsSpace(a[i])
    ensures Filter(a + b, NotSpace) == Filter(b, NotSpace)
    ensures Filter(b + a, NotSpace) == Filter(b, NotSpace)
  {
    FilterConcat(a, b, NotSpace);
    FilterConcat(b, a, NotSpace);
    forall x | x in a ensures !NotSpace(x) {
      var i :| 0 <= i < |a| && a[i] == x;
    }
    FilterNone(a, NotSpace);
  }

  lemma LStripKeepsText(s: string)
    ensures Filter(LStrip(s), NotSpace) == Filter(s, NotSpace)
  {
    var l := LStrip(s);
    var a := s[..|s| - |l|];
    assert s == a + l;
    assert forall i :: 0 <= i < |a| ==> a[i] == s[i] && IsSpace(a[i]);
    DropSpaces(a, l);
  }

  lemma RStripKeepsText(s: string)
    ensures Filter(RStrip(s), NotSpace) == Filter(s, NotSpace)
  {
    var r := RStrip(s);
    var b := s[|r|..];
    assert s == r + b;
    assert forall i :: 0 <= i < |b| ==> b[i] == s[|r| + i] && IsSpace(b[i]);
    DropSpaces(b, r);
  }

  /** Stripping keeps every non-whitespace character. */
  lemma StripKeepsText(s: string)
    ensures Filter(Strip(s), NotSpace) == Filter(s, NotSpace)
  {
    LStripKeepsText(s);
    RStripKeepsText(LStrip(s));
  }

  lemma {:induction false} WordLenSnoc(t: string, c: char)
    requires IsSpace(c)
    ensures WordLen(t + [c]) == WordLen(t)
    decreases |t|
  {
    if |t| > 0 && !IsSpace(t[0]) {
      assert (t + [c])[1..] == t[1..] + [c];
      WordLenSnoc(t[1..], c);
    }
  }

  /** A trailing whitespace character adds no field. */
  lemma {:induction false} WordsSnocSpace(t: string, c: char)
    requires IsSpace(c)
    ensures Words(t + [c]) == Words(t)
    decreases |t|
  {
    if |t| == 0 {
      assert Words([c]) == Words([c][1..]);
    } else if IsSpace(t[0]) {
      assert (t + [c])[1..] == t[1..] + [c];
      WordsSnocSpace(t[1..], c);
    } else {
      var n := WordLen(t);
      WordLenSnoc(t, c);
      assert (t + [c])[..n] == t[..n];
      assert (t + [c])[n..] == t[n..] + [c];
      WordsSnocSpace(t[n..], c);
    }
  }

  lemma {:induction false} WordsOfLStrip(s: string)
    ensures Words(LStrip(s)) == Words(s)
    decreases |s|
  {
    if |s| > 0 && IsSpace(s[0]) {
      WordsOfLStrip(s[1..]);
    }
  }

  lemma {:induction false} WordsOfRStrip(s: string)
    ensures Words(RStrip(s)) == Words(s)
    decreases |s|
  {
    if |s| > 0 && IsSpace(s[|s| - 1]) {
      var t := s[..|s| - 1];
      assert s == t + [s[|s| - 1]];
      WordsSnocSpace(t, s[|s| - 1]);
      WordsOfRStrip(t);
    }
  }

  /** `s.strip().split()` gives the same fields as `s.split()`. */
  lemma WordsOfStrip(s: string)
    ensures Words(Strip(s)) == Words(s)
  {
    WordsOfLStrip(s);
    WordsOfRStrip(LStrip(s));
  }

  /** A field followed by whitespace is split off whole. */
  lemma WordThenSpace(w: string, rest: string)
    requires |w| > 0 && NoSpace(w)
    requires |rest| > 0 && IsSpace(rest[0])
    ensures Words(w + rest) == [w] + Words(rest)
  {
    var s := w + rest;
    WordLenOf(w, rest);
    assert s[..|w|] == w && s[|w|..] == rest;
  }

  lemma {:induction false} WordLenOf(w: string, rest: string)
    requires NoSpace(w)
    requires |rest| > 0 && IsSpace(rest[0])
    ensures WordLen(w + rest) == |w|
    decreases |w|
  {
    if |w| > 0 {
      assert (w + rest)[1..] == w[1..] + rest;
      WordLenOf(w[1..], rest);
    }
  }

  /** Fields written on one line: separated by single spaces and ended
      by a newline, as in a version file. */
  function Line(ws: seq<string>): string
    requires |ws| > 0
  {
    if |ws| == 1 then ws[0] + "\n" else ws[0] + " " + Line(ws[1..])
  }

  /** Splitting a line gives back the fields it was written from. */
  lemma {:induction false} WordsOfLine(ws: seq<string>)
    requires |ws| > 0
    requires forall i :: 0 <= i < |ws| ==> |ws[i]| > 0 && NoSpace(ws[i])
    ensures Words(Line(ws)) == ws
  {
    if |ws| == 1 {
      WordThenSpace(ws[0], "\n");
      assert Words("\n") == Words("\n"[1..]);
    } else {
      var rest := " " + Line(ws[1..]);
      assert Line(ws) == ws[0] + rest;
      WordThenSpace(ws[0], rest);
      assert rest[1..] == Line(ws[1..]);
      WordsOfLine(ws[1..]);
    }
  }

  function Digit(d: nat): (c: char)
    requires d < 10
    ensures '0' <= c <= '9'
  {
    (48 + d) as char
  }

  predicate AllDigits(s: string) {
    forall i :: 0 <= i < |s| ==> '0' <= s[i] <= '9'
  }

  /** `'%d' % n` for a natural number: decimal digits, no leading zero. */
  function Dec(n: nat): (r: string)
    ensures |r| > 0 && AllDigits(r)
    ensures n > 0 ==> r[0] != '0'
  {
    if n < 10 then [Digit(n)] else Dec(n / 10) + [Digit(n % 10)]
  }

  /** The value of a string of decimal digits. */
  function ParseDec(s: string): nat
    requires AllDigits(s)
  {
    if |s| == 0 then 0 else 10 * ParseDec(s[..|s| - 1]) + (s[|s| - 1] as int - 48)
  }

  /** Reading a rendered number back gives the number. */
  lemma {:induction false} DecRoundTrip(n: nat)
    ensures ParseDec(Dec(n)) == n
  {
    if n >= 10 {
      DecRoundTrip(n / 10);
      assert Dec(n)[..|Dec(n)| - 1] == Dec(n / 10);
    }
  }

  /** Different numbers are rendered differently. */
  lemma DecInjective(a: nat, b: nat)
    requires Dec(a) == Dec(b)
    ensures a == b
  {
    DecRoundTrip(a);
    DecRoundTrip(b);
  }
}
