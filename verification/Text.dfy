/**
 The string operations the modelled programs rely on: `str.strip`, `str.split()`,
 `str.splitlines` and `str.join`.

 A text is what a universal-newline read returns, so a carriage return never
 terminates a line here; every other line boundary of `str.splitlines` does.
 */
module Text {

  predicate IsBreak(c: char) {
    c == '\n' || c == '\U{0B}' || c == '\U{0C}' || c == '\U{1C}' || c == '\U{1D}' || c == '\U{1E}' ||
    c == '\U{85}' || c == '\U{2028}' || c == '\U{2029}'
  }

  predicate IsSpace(c: char) {
    IsBreak(c) || c == ' ' || c == '\t' || c == '\r' || c == '\U{1F}' || c == '\U{A0}' || c == '\U{1680}' ||
    '\U{2000}' <= c <= '\U{200A}' || c == '\U{202F}' || c == '\U{205F}' || c == '\U{3000}'
  }

  predicate AllSpace(s: string) {
    forall i :: 0 <= i < |s| ==> IsSpace(s[i])
  }

  predicate NoBreak(s: string) {
    forall i :: 0 <= i < |s| ==> !IsBreak(s[i])
  }

  /** No line boundary, nor what reading the text back would make one. */
  predicate OneLine(s: string) {
    NoBreak(s) && '\r' !in s
  }

  // ---------- strip ----------

  function Lstrip(s: string): string {
    if s != [] && IsSpace(s[0]) then Lstrip(s[1..]) else s
  }

  function Rstrip(s: string): string {
    if s != [] && IsSpace(s[|s| - 1]) then Rstrip(s[..|s| - 1]) else s
  }

  function Strip(s: string): string {
    Rstrip(Lstrip(s))
  }

  lemma {:induction false} LstripSpace(w: string, s: string)
    requires AllSpace(w)
    ensures Lstrip(w + s) == Lstrip(s)
  {
    if w == [] {
      assert w + s == s;
    } else {
      assert (w + s)[1..] == w[1..] + s;
      LstripSpace(w[1..], s);
    }
  }

  lemma {:induction false} RstripSpace(s: string, w: string)
    requires AllSpace(w)
    ensures Rstrip(s + w) == Rstrip(s)
  {
    if w == [] {
      assert s + w == s;
    } else {
      assert (s + w)[..|s + w| - 1] == s + w[..|w| - 1];
      RstripSpace(s, w[..|w| - 1]);
    }
  }

  /** A left strip stops at the first character that is not a space. */
  lemma {:induction false} LstripAround(a: string, c: char, b: string)
    requires !IsSpace(c)
    ensures Lstrip(a + [c] + b) == Lstrip(a) + [c] + b
  {
    if a != [] && IsSpace(a[0]) {
      assert (a + [c] + b)[1..] == a[1..] + [c] + b;
      LstripAround(a[1..], c, b);
    } else if a == [] {
      assert a + [c] + b == [c] + b;
    }
  }

  lemma {:induction false} RstripAround(a: string, c: char, b: string)
    requires !IsSpace(c)
    ensures Rstrip(a + [c] + b) == a + [c] + Rstrip(b)
  {
    var s := a + [c] + b;
    if b != [] && IsSpace(b[|b| - 1]) {
      assert s[..|s| - 1] == a + [c] + b[..|b| - 1];
      RstripAround(a, c, b[..|b| - 1]);
    }
  }

  /** Stripping splits a string into leading spaces, the result, and trailing spaces. */
  lemma {:induction false} LstripSplits(s: string) returns (w: string)
    ensures AllSpace(w) && s == w + Lstrip(s)
    ensures Lstrip(s) != [] ==> !IsSpace(Lstrip(s)[0])
  {
    if s != [] && IsSpace(s[0]) {
      var v := LstripSplits(s[1..]);
      w := [s[0]] + v;
    } else {
      w := [];
    }
  }

  lemma {:induction false} RstripSplits(s: string) returns (w: string)
    ensures AllSpace(w) && s == Rstrip(s) + w
    ensures Rstrip(s) != [] ==> !IsSpace(Rstrip(s)[|Rstrip(s)| - 1])
  {
    if s != [] && IsSpace(s[|s| - 1]) {
      var v := RstripSplits(s[..|s| - 1]);
      w := v + [s[|s| - 1]];
    } else {
      w := [];
    }
  }

  /** Spaces on either side do not change what a string strips to. */
  lemma StripIgnoresSpace(w: string, s: string, v: string)
    requires AllSpace(w) && AllSpace(v)
    ensures Strip(w + s + v) == Strip(s)
  {
    assert w + s + v == w + (s + v);
    LstripSpace(w, s + v);
    var u := LstripSplits(s);
    var t := Lstrip(s);
    assert s + v == u + (t + v);
    LstripSpace(u, t + v);
    if t == [] {
      assert t + v == v + [];
      LstripSpace(v, []);
    } else {
      assert Lstrip(t + v) == t + v;
      RstripSpace(t, v);
    }
  }

  lemma StripAround(a: string, c: char, b: string)
    requires !IsSpace(c)
    ensures Strip(a + [c] + b) == Lstrip(a) + [c] + Rstrip(b)
  {
    LstripAround(a, c, b);
    RstripAround(Lstrip(a), c, b);
  }

  lemma StripLstrip(s: string)
    ensures Strip(Lstrip(s)) == Strip(s)
  {
    var w := LstripSplits(s);
    StripIgnoresSpace(w, Lstrip(s), []);
    assert w + Lstrip(s) + [] == s;
  }

  lemma StripRstrip(s: string)
    ensures Strip(Rstrip(s)) == Strip(s)
  {
    var w := RstripSplits(s);
    StripIgnoresSpace([], Rstrip(s), w);
    assert [] + Rstrip(s) + w == s;
  }

  // ---------- splitlines and join ----------

  function Concat(parts: seq<string>): string {
    if parts == [] then [] else parts[0] + Concat(parts[1..])
  }

  /** How many characters the first line of a non-empty text has, its boundary included. */
  function LineLength(t: string): (n: nat)
    requires t != []
    ensures 1 <= n <= |t|
    ensures NoBreak(t[..n - 1])
    ensures n < |t| ==> IsBreak(t[n - 1])
  {
    if IsBreak(t[0]) || |t| == 1 then 1
    else
      var n := 1 + LineLength(t[1..]);
      assert t[..n - 1] == [t[0]] + t[1..][..n - 2];
      n
  }

  /** `text.splitlines(keepends=True)` */
  function SplitLines(t: string): seq<string> {
    if t == [] then []
    else
      var n := LineLength(t);
      [t[..n]] + SplitLines(t[n..])
  }

  /** What `splitlines` yields: non-empty, with a boundary nowhere but at the end. */
  predicate IsLine(l: string) {
    l != [] && NoBreak(l[..|l| - 1])
  }

  predicate Terminated(l: string) {
    IsLine(l) && IsBreak(l[|l| - 1])
  }

  predicate AreLines(ls: seq<string>) {
    && (forall i :: 0 <= i < |ls| ==> IsLine(ls[i]))
    && (forall i :: 0 <= i < |ls| - 1 ==> Terminated(ls[i]))
  }

  lemma {:induction false} SplitLinesShape(t: string)
    ensures Concat(SplitLines(t)) == t
    ensures AreLines(SplitLines(t))
  {
    hide AreLines, IsLine, Terminated, LineLength, Concat, IsBreak, NoBreak;
    if t == [] {
      NothingSplits();
    } else {
      var n := LineLength(t);
      var first, rest := t[..n], SplitLines(t[n..]);
      SplitLinesShape(t[n..]);
      FirstLine(t);
      assert rest != [] ==> n < |t|;
      SplitLinesCons(first, rest);
      assert t == first + t[n..];
    }
  }

  lemma NothingSplits()
    ensures SplitLines([]) == [] && Concat([]) == [] && AreLines([])
  {}

  lemma FirstLine(t: string)
    requires t != []
    ensures var n := LineLength(t); IsLine(t[..n]) && (n < |t| ==> Terminated(t[..n]))
  {
    hide LineLength, IsBreak, NoBreak;
    var n := LineLength(t);
    assert t[..n][..n - 1] == t[..n - 1] && t[..n][n - 1] == t[n - 1];
  }

  lemma SplitLinesCons(first: string, rest: seq<string>)
    requires IsLine(first) && AreLines(rest) && (rest != [] ==> Terminated(first))
    ensures AreLines([first] + rest)
    ensures Concat([first] + rest) == first + Concat(rest)
  {
    var all := [first] + rest;
    assert all[1..] == rest;
    forall i | 0 <= i < |all| ensures IsLine(all[i]) {
      if i > 0 { assert all[i] == rest[i - 1]; }
    }
    forall i | 0 <= i < |all| - 1 ensures Terminated(all[i]) {
      if i > 0 { assert all[i] == rest[i - 1]; }
    }
  }

  lemma {:induction false} LineLengthOf(l: string, rest: string)
    requires IsLine(l) && (Terminated(l) || rest == [])
    ensures LineLength(l + rest) == |l|
  {
    if |l| > 1 {
      assert (l + rest)[1..] == l[1..] + rest;
      assert l[0] == l[..|l| - 1][0];
      assert l[1..][..|l| - 2] == l[..|l| - 1][1..];
      LineLengthOf(l[1..], rest);
    }
  }

  /** Splitting undoes concatenation of well-formed lines. */
  lemma {:induction false} SplitLinesConcat(ls: seq<string>)
    requires AreLines(ls)
    ensures SplitLines(Concat(ls)) == ls
  {
    if ls != [] {
      var rest := Concat(ls[1..]);
      if |ls| == 1 {
        assert ls[1..] == [];
        assert rest == [];
      }
      LineLengthOf(ls[0], rest);
      assert Concat(ls) == ls[0] + rest;
      assert (ls[0] + rest)[..|ls[0]|] == ls[0];
      assert (ls[0] + rest)[|ls[0]|..] == rest;
      SplitLinesConcat(ls[1..]);
      assert ls == [ls[0]] + ls[1..];
    }
  }

  lemma {:induction false} ConcatAppend(a: seq<string>, b: seq<string>)
    ensures Concat(a + b) == Concat(a) + Concat(b)
  {
    if a == [] {
      assert a + b == b;
    } else {
      assert (a + b)[1..] == a[1..] + b;
      ConcatAppend(a[1..], b);
    }
  }

  /** `sep.join(parts)` */
  function Join(sep: string, parts: seq<string>): string {
    if parts == [] then []
    else if |parts| == 1 then parts[0]
    else parts[0] + sep + Join(sep, parts[1..])
  }

  // ---------- split on whitespace ----------

  /** Length of the longest prefix without a space. */
  function WordLength(s: string): (n: nat)
    ensures n <= |s|
    ensures forall i :: 0 <= i < n ==> !IsSpace(s[i])
    ensures n < |s| ==> IsSpace(s[n])
  {
    if s == [] || IsSpace(s[0]) then 0 else 1 + WordLength(s[1..])
  }

  /** `s.split()` */
  function Words(s: string): seq<string>
    decreases |s|
  {
    if s == [] then []
    else if IsSpace(s[0]) then Words(s[1..])
    else
      var n := WordLength(s);
      [s[..n]] + Words(s[n..])
  }

  predicate IsWord(w: string) {
    w != [] && forall i :: 0 <= i < |w| ==> !IsSpace(w[i])
  }

  /** Neither a space nor a line boundary, among others the characters of numbers and words. */
  predicate AllPlain(s: string) {
    forall i :: 0 <= i < |s| ==> '+' <= s[i] <= 'z'
  }

  lemma PlainIsWord(s: string)
    requires s != "" && AllPlain(s)
    ensures IsWord(s)
  {
    forall i | 0 <= i < |s| ensures !IsSpace(s[i]) { assert '+' <= s[i] <= 'z'; }
  }

  lemma {:induction false} WordsAreWords(s: string)
    ensures forall i :: 0 <= i < |Words(s)| ==> IsWord(Words(s)[i])
    decreases |s|
  {
    if s != [] {
      if IsSpace(s[0]) {
        WordsAreWords(s[1..]);
      } else {
        WordsAreWords(s[WordLength(s)..]);
      }
    }
  }

  predicate AreWords(piece: seq<string>) {
    forall i :: 0 <= i < |piece| ==> IsWord(piece[i])
  }

  lemma {:induction false} WordsOfJoin(ws: seq<string>)
    requires AreWords(ws)
    ensures Words(Join(" ", ws)) == ws
  {
    if ws != [] {
      var w, rest := ws[0], ws[1..];
      assert IsWord(w);
      if rest == [] {
        WordsCons(w, "");
        assert w + "" == w;
      } else {
        var tail := Join(" ", rest);
        WordsOfJoin(rest);
        WordsCons(w, " " + tail);
        assert w + " " + tail == w + (" " + tail);
        assert (" " + tail)[1..] == tail;
      }
      assert ws == [w] + rest;
    }
  }

  lemma {:induction false} WordLengthOf(w: string, s: string)
    requires forall i :: 0 <= i < |w| ==> !IsSpace(w[i])
    requires s == [] || IsSpace(s[0])
    ensures WordLength(w + s) == |w|
  {
    if w == [] {
      assert w + s == s;
    } else {
      assert (w + s)[1..] == w[1..] + s;
      WordLengthOf(w[1..], s);
    }
  }

  lemma WordsCons(w: string, s: string)
    requires IsWord(w) && (s == [] || IsSpace(s[0]))
    ensures Words(w + s) == [w] + Words(s)
  {
    WordLengthOf(w, s);
    assert (w + s)[..|w|] == w && (w + s)[|w|..] == s;
    assert !IsSpace((w + s)[0]);
  }

  // ---------- numbers ----------

  predicate IsDigit(c: char) {
    '0' <= c <= '9'
  }

  predicate AreDigits(s: string) {
    s != "" && forall i :: 0 <= i < |s| ==> IsDigit(s[i])
  }

  /** `str(n)` */
  function NatText(n: nat): string {
    if n < 10 then [['0', '1', '2', '3', '4', '5', '6', '7', '8', '9'][n]]
    else NatText(n / 10) + NatText(n % 10)
  }

  function IntText(n: int): string {
    if n < 0 then "-" + NatText(-n) else NatText(n)
  }

  /** The number a run of digits spells, underscores skipped. */
  function DigitsValue(s: string): nat {
    if s == "" then 0
    else
      var c, front := s[|s| - 1], DigitsValue(s[..|s| - 1]);
      if IsDigit(c) then front * 10 + (c as int - '0' as int) else front
  }

  lemma {:induction false} NatTextIsDigits(n: nat)
    ensures AreDigits(NatText(n)) && DigitsValue(NatText(n)) == n
  {
    var c := NatText(n % 10);
    assert |c| == 1 && IsDigit(c[0]) && c[0] as int - '0' as int == n % 10;
    if n >= 10 {
      NatTextIsDigits(n / 10);
      assert NatText(n)[..|NatText(n)| - 1] == NatText(n / 10);
    } else {
      assert NatText(n)[..0] == "";
    }
  }

  // ---------- search ----------

  /** Index of the first occurrence of `c`, or the length when there is none. */
  function Find(s: string, c: char): (i: nat)
    ensures i <= |s|
    ensures c !in s[..i]
    ensures i < |s| ==> s[i] == c
    ensures (i < |s|) == (c in s)
  {
    if s == [] || s[0] == c then 0
    else
      var i := 1 + Find(s[1..], c);
      assert s[..i] == [s[0]] + s[1..][..i - 1];
      assert s == [s[0]] + s[1..];
      i
  }

  lemma {:induction false} FindAfter(a: string, c: char, b: string)
    requires c !in a
    ensures Find(a + [c] + b, c) == |a|
  {
    if a != [] {
      assert (a + [c] + b)[1..] == a[1..] + [c] + b;
      assert a[0] in a;
      FindAfter(a[1..], c, b);
    }
  }
}
