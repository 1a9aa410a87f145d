/**
 Setting values: what an override writes (testit/helpers.py) and what the settings loader
 makes of it (mojo/helpers/settings/parser.py).

 A float stands for its printed form. Objects the loader does not read back as numbers,
 strings or Booleans are known by their text.
 */
module ConfValues {
  import opened Wrappers
  import opened Text

  /** How Python prints a float: digits, perhaps a fraction, perhaps an exponent; or no digits at all. */
  datatype Float =
    | Finite(negative: bool, whole: string, fraction: Option<string>, exponent: Option<(bool, string)>)
    | Infinite(negative: bool)
    | NotANumber
  {
    predicate Valid() {
      Finite? ==>
        && AreDigits(whole) && (fraction.Some? ==> AreDigits(fraction.value))
        && (exponent.Some? ==> AreDigits(exponent.value.1))
        && (fraction.Some? || exponent.Some?)
    }
  }

  function Exponent(e: Option<(bool, string)>): string {
    if e.None? then "" else if e.value.0 then "e-" + e.value.1 else "e+" + e.value.1
  }

  function Minus(negative: bool): string {
    if negative then "-" else ""
  }

  function FloatText(f: Float): string {
    match f
    case Finite(negative, whole, fraction, exponent) =>
      Minus(negative) + whole + (if fraction.Some? then "." + fraction.value else "") + Exponent(exponent)
    case Infinite(negative) => Minus(negative) + "inf"
    case NotANumber => "nan"
  }

  /** The value of an override. `Other` is any object that prints as `repr`. */
  datatype Value = Flag(b: bool) | Quoted(s: string) | Number(n: int) | Real(f: Float) | Nothing | Other(repr: string)

  /** `_format_conf_value` */
  function FormatConfValue(v: Value): string {
    match v
    case Flag(b) => if b then "True" else "False"
    case Quoted(s) => "'" + s + "'"
    case Number(n) => IntText(n)
    case Real(f) => FloatText(f)
    case Nothing => "None"
    case Other(repr) => repr
  }

  /** A value that prints on one line. */
  predicate IsOneLine(v: Value) {
    match v
    case Quoted(s) => OneLine(s)
    case Real(f) => f.Valid()
    case Other(repr) => OneLine(repr)
    case _ => true
  }

  // ---------- the loader ----------

  /** What a setting comes out as; the texts of lists, dicts and f-strings are evaluated further. */
  datatype Typed =
    | Bool(b: bool)
    | Str(s: string)
    | Int(n: int)
    | Decimal(text: string)
    | ListOf(text: string)
    | DictOf(text: string)
    | Evaluated(text: string)

  predicate Encloses(v: string, open: char, close: char) {
    v != "" && v[0] == open && v[|v| - 1] == close
  }

  /** `value[1:-1]` */
  function Inner(v: string): string {
    if |v| < 2 then "" else v[1..|v| - 1]
  }

  function Lower(v: string): string {
    seq(|v|, i requires 0 <= i < |v| => if 'A' <= v[i] <= 'Z' then v[i] - 'A' + 'a' else v[i])
  }

  /** Digits with single underscores between them. */
  predicate IsDigitRun(s: string) {
    && s != "" && IsDigit(s[0]) && IsDigit(s[|s| - 1])
    && (forall i :: 0 <= i < |s| ==> IsDigit(s[i]) || s[i] == '_')
    && (forall i, j :: 0 <= i < |s| && j == i + 1 && j < |s| ==> s[i] != '_' || s[j] != '_')
  }

  function Unsigned(s: string): string {
    if s != "" && (s[0] == '-' || s[0] == '+') then s[1..] else s
  }

  /** `int(value)`, for ASCII digits; None where it raises. */
  function ParseInt(s: string): Option<int> {
    var digits := Unsigned(s);
    if !IsDigitRun(digits) then None
    else
      var n: int := DigitsValue(digits);
      Some(if s[0] == '-' then -n else n)
  }

  /** Where the exponent of a float literal starts, or its length. */
  function ExponentAt(s: string): (i: nat)
    ensures i <= |s| && (i < |s| ==> s[i] == 'e' || s[i] == 'E')
    ensures forall j :: 0 <= j < i ==> s[j] != 'e' && s[j] != 'E'
  {
    if s == "" || s[0] == 'e' || s[0] == 'E' then 0 else 1 + ExponentAt(s[1..])
  }

  /** A text with a point that `float(value)` takes: digits on a side of the point at least, perhaps an exponent. */
  predicate IsDecimal(s: string) {
    var u := Unsigned(s);
    var e := ExponentAt(u);
    var mantissa := u[..e];
    var point := Find(mantissa, '.');
    && point < |mantissa|
    && (mantissa[..point] == "" || IsDigitRun(mantissa[..point]))
    && (mantissa[point + 1..] == "" || IsDigitRun(mantissa[point + 1..]))
    && |mantissa| > 1
    && (e < |u| ==> IsDigitRun(Unsigned(u[e + 1..])))
  }

  /** `_parse_numeric_or_string` */
  function ParseNumericOrString(v: string): Typed {
    if '.' in v then if IsDecimal(v) then Decimal(v) else Str(v)
    else if ParseInt(v).Some? then Int(ParseInt(v).value)
    else Str(v)
  }

  /** `_parse_value` */
  function ParseValue(v: string): Typed {
    if Encloses(v, '[', ']') then ListOf(v)
    else if Encloses(v, '{', '}') then DictOf(v)
    else if Encloses(v, '"', '"') || Encloses(v, '\'', '\'') then Str(Inner(v))
    else if |v| >= 2 && v[0] == 'f' && (v[1] == '"' || v[1] == '\'') then Evaluated(v)
    else if Lower(v) == "true" || Lower(v) == "false" then Bool(Lower(v) == "true")
    else ParseNumericOrString(v)
  }

  // ---------- reading what was written ----------

  /** What a value reads as: Booleans, strings and integers as themselves, a float with a point too. */
  function ReadAs(v: Value): Typed {
    match v
    case Flag(b) => Bool(b)
    case Quoted(s) => Str(s)
    case Number(n) => Int(n)
    case Real(f) => if f.Finite? && f.fraction.Some? then Decimal(FloatText(f)) else Str(FloatText(f))
    case Nothing => Str("None")
    case Other(repr) => ParseValue(Strip(repr))
  }

  lemma StartsBare(v: string)
    requires v != "" && !IsSpace(v[0]) && !IsSpace(v[|v| - 1])
    ensures Strip(v) == v
  {
    assert v == v[..|v|];
  }

  lemma PlainIsBare(v: string)
    requires v != "" && AllPlain(v)
    ensures Strip(v) == v && OneLine(v)
  {
    forall i | 0 <= i < |v| ensures !IsSpace(v[i]) { assert '+' <= v[i] <= 'z'; }
    StartsBare(v);
  }

  lemma FlagReads(b: bool)
    ensures var v := if b then "True" else "False";
            Strip(v) == v && ParseValue(v) == Bool(b) && OneLine(v)
  {
    var v := if b then "True" else "False";
    assert Lower("True") == "true" && Lower("False") == "false";
    StartsBare(v);
  }

  lemma QuotedReads(s: string)
    ensures Strip("'" + s + "'") == "'" + s + "'" && ParseValue("'" + s + "'") == Str(s)
    ensures OneLine(s) ==> OneLine("'" + s + "'")
  {
    var v := "'" + s + "'";
    StartsBare(v);
    assert Inner(v) == s;
  }

  lemma SignComesOff(negative: bool, u: string)
    requires u != "" && u[0] != '-' && u[0] != '+'
    ensures Unsigned(Minus(negative) + u) == u && (Minus(negative) + u)[0] == if negative then '-' else u[0]
  {}

  lemma DigitRun(s: string)
    requires AreDigits(s)
    ensures IsDigitRun(s) && AllPlain(s)
  {}

  lemma NumberParses(negative: bool, digits: string)
    requires AreDigits(digits)
    ensures var v := Minus(negative) + digits;
            && v != "" && AllPlain(v) && (v[0] == '-' || IsDigit(v[0])) && '.' !in v
            && ParseInt(v) == Some((if negative then -1 else 1) * DigitsValue(digits))
  {
    DigitRun(digits);
    SignComesOff(negative, digits);
    hide DigitsValue, IsDigitRun, Unsigned;
  }

  lemma NumberReads(n: int)
    ensures Strip(IntText(n)) == IntText(n) && ParseValue(IntText(n)) == Int(n) && OneLine(IntText(n))
  {
    hide NatText, DigitsValue, Strip, OneLine, ParseValue, ParseInt, AllPlain;
    var v, digits := IntText(n), NatText(if n < 0 then -n else n);
    NatTextIsDigits(if n < 0 then -n else n);
    NumberParses(n < 0, digits);
    assert v == Minus(n < 0) + digits;
    PlainIsBare(v);
    NoWord(v);
  }

  /** A text that starts like a number is no list, dict, f-string or Boolean. */
  lemma NoWord(v: string)
    requires v != "" && (v[0] == '-' || IsDigit(v[0]) || v[0] == 'i' || v[0] == 'n')
    ensures ParseValue(v) == ParseNumericOrString(v)
  {
    hide ParseNumericOrString;
    assert Lower(v)[0] == v[0];
    assert "true"[0] == 't' && "false"[0] == 'f';
  }

  // ---------- floats ----------

  lemma {:induction false} ExponentStarts(a: string, e: string)
    requires forall i :: 0 <= i < |a| ==> a[i] != 'e' && a[i] != 'E'
    requires e == "" || e[0] == 'e'
    ensures ExponentAt(a + e) == |a|
  {
    if a == "" {
      assert a + e == e;
    } else {
      assert (a + e)[1..] == a[1..] + e;
      ExponentStarts(a[1..], e);
    }
  }

  function Mantissa(f: Float): string
    requires f.Finite?
  {
    f.whole + if f.fraction.Some? then "." + f.fraction.value else ""
  }

  lemma FiniteText(f: Float)
    requires f.Valid() && f.Finite?
    ensures FloatText(f) == Minus(f.negative) + (Mantissa(f) + Exponent(f.exponent))
    ensures AllPlain(FloatText(f)) && Mantissa(f) != "" && IsDigit(Mantissa(f)[0])
    ensures forall i :: 0 <= i < |Mantissa(f)| ==> IsDigit(Mantissa(f)[i]) || Mantissa(f)[i] == '.'
    ensures Exponent(f.exponent) == "" || Exponent(f.exponent)[0] == 'e'
    ensures '.' !in Exponent(f.exponent)
  {
    ExponentText(f.exponent);
    var e := Exponent(f.exponent);
    hide Exponent;
    assert Minus(f.negative) + f.whole + (if f.fraction.Some? then "." + f.fraction.value else "") + e
        == Minus(f.negative) + (Mantissa(f) + e);
  }

  lemma ExponentText(e: Option<(bool, string)>)
    requires e.Some? ==> AreDigits(e.value.1)
    ensures AllPlain(Exponent(e)) && '.' !in Exponent(e)
    ensures Exponent(e) == "" <==> e.None?
    ensures e.Some? ==> Exponent(e)[0] == 'e' && Unsigned(Exponent(e)[1..]) == e.value.1
  {
    if e.Some? {
      assert Exponent(e)[1..] == (if e.value.0 then "-" else "+") + e.value.1;
    }
  }

  /** The unsigned text of a float with a point, part by part. */
  lemma PointParts(f: Float)
    requires f.Valid() && f.Finite? && f.fraction.Some?
    ensures var u := Mantissa(f) + Exponent(f.exponent);
            var m := Mantissa(f);
            && ExponentAt(u) == |m| && u[..|m|] == m && |m| > 1
            && Find(m, '.') == |f.whole| < |m|
            && m[..|f.whole|] == f.whole && m[|f.whole| + 1..] == f.fraction.value
            && (|m| < |u| ==> IsDigitRun(Unsigned(u[|m| + 1..])))
  {
    hide Exponent, FloatText, Mantissa, IsDigitRun, Find, ExponentAt, Unsigned, AreDigits, AllPlain;
    FiniteText(f);
    ExponentText(f.exponent);
    MantissaParts(f);
    ExponentSplits(Mantissa(f), Exponent(f.exponent));
    if f.exponent.Some? { DigitRun(f.exponent.value.1); }
  }

  lemma ExponentSplits(m: string, e: string)
    requires forall i :: 0 <= i < |m| ==> IsDigit(m[i]) || m[i] == '.'
    requires e == "" || e[0] == 'e'
    ensures ExponentAt(m + e) == |m| && (m + e)[..|m|] == m
    ensures e != "" ==> (m + e)[|m| + 1..] == e[1..]
  {
    ExponentStarts(m, e);
  }

  lemma MantissaParts(f: Float)
    requires f.Valid() && f.Finite? && f.fraction.Some?
    ensures var m := Mantissa(f);
            && |m| > 1 && Find(m, '.') == |f.whole| < |m|
            && m[..|f.whole|] == f.whole && m[|f.whole| + 1..] == f.fraction.value
  {
    assert Mantissa(f) == f.whole + ['.'] + f.fraction.value;
    assert '.' !in f.whole;
    hide Find;
    FindAfter(f.whole, '.', f.fraction.value);
  }

  lemma PartsAreDecimal(v: string, u: string, m: string, point: nat)
    requires Unsigned(v) == u && ExponentAt(u) == |m| && |m| > 1 && u[..|m|] == m && Find(m, '.') == point < |m|
    requires IsDigitRun(m[..point]) && IsDigitRun(m[point + 1..])
    requires |m| < |u| ==> IsDigitRun(Unsigned(u[|m| + 1..]))
    ensures IsDecimal(v)
  {
    hide Unsigned, ExponentAt, Find, IsDigitRun;
  }

  lemma PointReads(f: Float)
    requires f.Valid() && f.Finite? && f.fraction.Some?
    ensures '.' in FloatText(f) && IsDecimal(FloatText(f))
  {
    FiniteText(f);
    PointParts(f);
    DigitRun(f.whole);
    DigitRun(f.fraction.value);
    var m, u, v := Mantissa(f), Mantissa(f) + Exponent(f.exponent), FloatText(f);
    SignComesOff(f.negative, u);
    assert m[|f.whole|] == '.' by {
      hide Exponent, FloatText, IsDigitRun, ExponentAt, Minus, IsDecimal, Mantissa;
    }
    hide Exponent, FloatText, IsDigitRun, Find, ExponentAt, Minus, IsDecimal, Unsigned, Mantissa;
    PartsAreDecimal(v, u, m, |f.whole|);
    assert u[|f.whole|] == m[|f.whole|];
    assert v == Minus(f.negative) + u;
    assert v[|Minus(f.negative)| + |f.whole|] == '.';
  }

  lemma PointlessDigits(f: Float)
    requires f.Valid() && f.Finite? && f.fraction.None?
    ensures '.' !in FloatText(f) && ParseInt(FloatText(f)).None?
  {
    FiniteText(f);
    ExponentText(f.exponent);
    hide FloatText, Exponent;
    var m, e := Mantissa(f), Exponent(f.exponent);
    assert m == f.whole;
    SignComesOff(f.negative, m + e);
    assert (m + e)[|m|] == 'e';
    assert '.' !in m && '.' !in Minus(f.negative);
    hide Mantissa, Unsigned, Minus;
  }

  lemma PointlessWord(negative: bool, word: string)
    requires word == "inf" || word == "nan"
    ensures '.' !in Minus(negative) + word && ParseInt(Minus(negative) + word).None?
  {
    SignComesOff(negative, word);
    assert !IsDigit(word[0]);
  }

  /** Without a point a float is taken for a string. */
  lemma PointlessReads(f: Float)
    requires f.Valid() && !(f.Finite? && f.fraction.Some?)
    ensures '.' !in FloatText(f) && ParseInt(FloatText(f)).None?
  {
    hide ParseInt, Exponent;
    if f.Finite? {
      PointlessDigits(f);
    } else {
      var negative, word := f.Infinite? && f.negative, if f.NotANumber? then "nan" else "inf";
      PointlessWord(negative, word);
      assert FloatText(f) == Minus(negative) + word;
    }
  }

  lemma FloatShape(f: Float)
    requires f.Valid()
    ensures var v := FloatText(f);
            v != "" && (v[0] == '-' || IsDigit(v[0]) || v[0] == 'i' || v[0] == 'n') && AllPlain(v)
  {
    if f.Finite? {
      FiniteText(f);
      SignComesOff(f.negative, Mantissa(f) + Exponent(f.exponent));
      hide FloatText, Exponent, Mantissa;
    }
  }

  lemma FloatReads(f: Float)
    requires f.Valid()
    ensures Strip(FloatText(f)) == FloatText(f) && OneLine(FloatText(f))
    ensures ParseValue(FloatText(f)) ==
            if f.Finite? && f.fraction.Some? then Decimal(FloatText(f)) else Str(FloatText(f))
  {
    hide FloatText, IsDecimal, ParseInt, Strip, OneLine, ParseValue, AllPlain;
    var v := FloatText(f);
    FloatShape(f);
    PlainIsBare(v);
    NoWord(v);
    if f.Finite? && f.fraction.Some? { PointReads(f); } else { PointlessReads(f); }
  }

  lemma NothingReads()
    ensures Strip("None") == "None" && ParseValue("None") == Str("None") && OneLine("None")
  {
    StartsBare("None");
    assert Lower("None")[0] == 'n' && "true"[0] == 't' && "false"[0] == 'f';
    assert Unsigned("None") == "None";
  }

  /** What the override line says is read as the value itself, as far as `ReadAs` goes. */
  lemma FormattedReads(v: Value)
    requires IsOneLine(v)
    ensures OneLine(FormatConfValue(v)) && ParseValue(Strip(FormatConfValue(v))) == ReadAs(v)
  {
    hide Strip, OneLine, ParseValue, IntText, FloatText;
    match v
    case Flag(b) => FlagReads(b);
    case Quoted(s) => QuotedReads(s);
    case Number(n) => NumberReads(n);
    case Real(f) => FloatReads(f);
    case Nothing => NothingReads();
    case Other(repr) =>
  }

  /** The value of an override in the loader's terms, where the loader has such values; the text stands for a float. */
  function Own(v: Value): Option<Typed> {
    match v
    case Flag(b) => Some(Bool(b))
    case Quoted(s) => Some(Str(s))
    case Number(n) => Some(Int(n))
    case Real(f) => Some(Decimal(FloatText(f)))
    case _ => None
  }

  /** Booleans, strings and integers are read as themselves; floats exactly when they print with a point; None never. */
  lemma ReadsItselfExactlyWhen(v: Value)
    requires IsOneLine(v) && !v.Other?
    ensures Own(v) == Some(ParseValue(Strip(FormatConfValue(v)))) <==>
            !v.Nothing? && !(v.Real? && !(v.f.Finite? && v.f.fraction.Some?))
  {
    hide FormatConfValue, ParseValue, Strip;
    FormattedReads(v);
  }

  function Word(b: bool): string {
    if b then "true" else "false"
  }

  function UpperWord(b: bool): string {
    if b then "TRUE" else "FALSE"
  }

  /** The loader takes for a Boolean what spells true or false in any case, and nothing else. */
  lemma BooleansExactlyWhen(v: string, b: bool)
    ensures ParseValue(v) == Bool(b) <==>
            |v| == |Word(b)| && forall i :: 0 <= i < |v| ==> v[i] == Word(b)[i] || v[i] == UpperWord(b)[i]
  {
    LowerSpells(v, true);
    LowerSpells(v, false);
    if Lower(v) == Word(true) || Lower(v) == Word(false) {
      var w := Lower(v) == Word(true);
      assert v[0] == Word(w)[0] || v[0] == UpperWord(w)[0];
      assert v[1] == Word(w)[1] || v[1] == UpperWord(w)[1];
    }
    hide Lower, ParseNumericOrString, Inner;
    assert Word(true) != Word(false);
  }

  lemma LowerSpells(v: string, b: bool)
    ensures Lower(v) == Word(b) <==>
            |v| == |Word(b)| && forall i :: 0 <= i < |v| ==> v[i] == Word(b)[i] || v[i] == UpperWord(b)[i]
  {
    var l, w, u := Lower(v), Word(b), UpperWord(b);
    assert |w| == |u|;
    assert forall i :: 0 <= i < |w| ==> 'a' <= w[i] <= 'z' && 'A' <= u[i] <= 'Z' && u[i] - 'A' + 'a' == w[i];
    hide Word, UpperWord;
    assert forall i :: 0 <= i < |v| ==> l[i] == if 'A' <= v[i] <= 'Z' then v[i] - 'A' + 'a' else v[i];
    if |v| == |w| {
      forall i | 0 <= i < |v| ensures l[i] == w[i] <==> v[i] == w[i] || v[i] == u[i] {}
    }
  }
}
