/**
 Skill files: YAML frontmatter between `---` lines, read back line by line and printed
 with the description as a folded block (scripts/sync_maestro_skills.py).
 */
module SkillFrontmatter {
  import opened Wrappers
  import opened Text
  import Packing

  const FENCE: string := "---"

  const BLOCKS: seq<string> := [">", ">-", "|", "|-"]

  datatype Error = MissingFrontmatter | Unterminated | MissingKey(key: string) | NameMismatch(found: string)

  // ---------- lines ----------

  function Bare(line: string): string {
    if line != [] && IsBreak(line[|line| - 1]) then line[..|line| - 1] else line
  }

  function AllBare(ls: seq<string>): (r: seq<string>)
    ensures |r| == |ls|
    ensures forall i :: 0 <= i < |ls| ==> r[i] == Bare(ls[i])
  {
    if ls == [] then [] else [Bare(ls[0])] + AllBare(ls[1..])
  }

  /** `text.splitlines()` */
  function Lines(t: string): seq<string> {
    AllBare(SplitLines(t))
  }

  function Line(l: string): string {
    l + "\n"
  }

  /** Each line followed by a newline. */
  function Unlines(ls: seq<string>): string {
    if ls == [] then [] else Line(ls[0]) + Unlines(ls[1..])
  }

  lemma Assoc<T>(a: seq<T>, b: seq<T>, c: seq<T>)
    ensures a + b + c == a + (b + c)
  {}

  lemma LinesCons(l: string, rest: string)
    requires NoBreak(l)
    ensures Lines(Line(l) + rest) == [l] + Lines(rest)
  {
    var line := Line(l);
    assert line[..|line| - 1] == l;
    LineLengthOf(line, rest);
    assert (line + rest)[..|line|] == line && (line + rest)[|line|..] == rest;
    assert SplitLines(line + rest) == [line] + SplitLines(rest);
    assert ([line] + SplitLines(rest))[1..] == SplitLines(rest);
  }

  lemma {:induction false} LinesOfUnlines(ls: seq<string>, rest: string)
    requires forall i :: 0 <= i < |ls| ==> NoBreak(ls[i])
    ensures Lines(Unlines(ls) + rest) == ls + Lines(rest)
  {
    hide Lines, NoBreak, Line;
    if ls == [] {
      assert Unlines(ls) + rest == rest && ls + Lines(rest) == Lines(rest);
    } else {
      Assoc(Line(ls[0]), Unlines(ls[1..]), rest);
      LinesCons(ls[0], Unlines(ls[1..]) + rest);
      LinesOfUnlines(ls[1..], rest);
      assert ls == [ls[0]] + ls[1..];
      Assoc([ls[0]], ls[1..], Lines(rest));
    }
  }

  lemma {:induction false} UnlinesJoin(ls: seq<string>)
    requires ls != []
    ensures Unlines(ls) == Line(Join("\n", ls))
  {
    if |ls| > 1 {
      UnlinesJoin(ls[1..]);
      Assoc(Line(ls[0]), Join("\n", ls[1..]), "\n");
    } else {
      assert Line(ls[0]) + [] == Line(ls[0]);
    }
  }

  predicate OnlyNewlines(t: string) {
    forall i :: 0 <= i < |t| && (IsBreak(t[i]) || t[i] == '\r') ==> t[i] == '\n'
  }

  /** Splitting into lines and joining them again is the identity but for the last newline. */
  lemma {:induction false} JoinLines(t: string)
    requires OnlyNewlines(t)
    ensures Lines(Line(t)) != [] && Join("\n", Lines(Line(t))) == t
  {
    hide Lines, SplitLines, Join;
    var text := Line(t);
    var n := LineLength(text);
    var a, b := text[..n - 1], text[n..];
    assert text[n - 1] == '\n';
    assert text == Line(a) + b;
    LinesCons(a, b);
    if n == |text| {
      assert a == t && b == [];
      NoLines(a);
    } else {
      var rest := t[n..];
      assert b == Line(rest);
      JoinLines(rest);
      JoinCons(a, Lines(b));
      assert t == a + "\n" + rest;
    }
  }

  lemma NoLines(a: string)
    ensures Lines([]) == [] && Join("\n", [a] + []) == a
  {}

  lemma JoinCons(a: string, ls: seq<string>)
    requires ls != []
    ensures Join("\n", [a] + ls) == a + "\n" + Join("\n", ls)
  {
    assert ([a] + ls)[1..] == ls;
  }

  // ---------- reading ----------

  function IndexFrom(ls: seq<string>, what: string, from: nat): (k: Option<nat>)
    requires from <= |ls|
    ensures k.Some? ==> from <= k.value < |ls| && ls[k.value] == what && what !in ls[from..k.value]
    ensures k.None? ==> what !in ls[from..]
    decreases |ls| - from
  {
    if from == |ls| then None
    else if ls[from] == what then Some(from)
    else
      assert ls[from..] == [ls[from]] + ls[from + 1..];
      var k := IndexFrom(ls, what, from + 1);
      assert k.Some? ==> ls[from..k.value] == [ls[from]] + ls[from + 1..k.value];
      k
  }

  lemma {:induction false} IndexIs(ls: seq<string>, what: string, from: nat, k: nat)
    requires from <= k < |ls| && ls[k] == what && what !in ls[from..k]
    ensures IndexFrom(ls, what, from) == Some(k)
    decreases k - from
  {
    if from < k {
      assert ls[from..k] == [ls[from]] + ls[from + 1..k];
      IndexIs(ls, what, from + 1, k);
    }
  }

  function LstripNewlines(s: string): string {
    if s != [] && s[0] == '\n' then LstripNewlines(s[1..]) else s
  }

  /** `split_frontmatter` */
  function SplitFrontmatter(text: string): Result<(seq<string>, string), Error> {
    var ls := Lines(text);
    if ls == [] || ls[0] != FENCE then Err(MissingFrontmatter)
    else
      match IndexFrom(ls, FENCE, 1)
      case None => Err(Unterminated)
      case Some(closing) => Ok((ls[1..closing], LstripNewlines(Join("\n", ls[closing + 1..]))))
  }

  predicate IsQuote(c: char) {
    c == '"' || c == '\''
  }

  function LstripQuotes(s: string): string {
    if s != [] && IsQuote(s[0]) then LstripQuotes(s[1..]) else s
  }

  function RstripQuotes(s: string): string {
    if s != [] && IsQuote(s[|s| - 1]) then RstripQuotes(s[..|s| - 1]) else s
  }

  function StripQuotes(s: string): string {
    RstripQuotes(LstripQuotes(s))
  }

  predicate StartsWith(line: string, prefix: string) {
    |prefix| <= |line| && line[..|prefix|] == prefix
  }

  predicate Continues(line: string) {
    line == [] || IsSpace(line[0])
  }

  /** The stripped lines up to the first that starts in column one. */
  function Continuation(ls: seq<string>): seq<string> {
    if ls == [] || !Continues(ls[0]) then [] else [Strip(ls[0])] + Continuation(ls[1..])
  }

  function NonEmpty(parts: seq<string>): seq<string> {
    if parts == [] then []
    else (if parts[0] != [] then [parts[0]] else []) + NonEmpty(parts[1..])
  }

  /** What `scalar` finds at or after line k; None where it raises. */
  function ScalarFrom(frontmatter: seq<string>, key: string, k: nat): Option<string>
    requires k <= |frontmatter|
    decreases |frontmatter| - k
  {
    if k == |frontmatter| then None
    else if !StartsWith(frontmatter[k], key + ":") then ScalarFrom(frontmatter, key, k + 1)
    else
      var value := Strip(frontmatter[k][|key| + 1..]);
      Some(if value in BLOCKS then Join(" ", NonEmpty(Continuation(frontmatter[k + 1..]))) else StripQuotes(value))
  }

  function Scalar(frontmatter: seq<string>, key: string): Option<string> {
    ScalarFrom(frontmatter, key, 0)
  }

  predicate AllQuotes(s: string) {
    forall i :: 0 <= i < |s| ==> IsQuote(s[i])
  }

  lemma {:induction false} LstripQuotesSplits(s: string) returns (a: string)
    ensures AllQuotes(a) && s == a + LstripQuotes(s)
    ensures LstripQuotes(s) != [] ==> !IsQuote(LstripQuotes(s)[0])
  {
    if s != [] && IsQuote(s[0]) {
      var b := LstripQuotesSplits(s[1..]);
      a := [s[0]] + b;
      assert s == [s[0]] + (b + LstripQuotes(s[1..]));
    } else {
      a := [];
    }
  }

  lemma {:induction false} RstripQuotesSplits(s: string) returns (a: string)
    ensures AllQuotes(a) && s == RstripQuotes(s) + a
    ensures RstripQuotes(s) != [] ==> !IsQuote(RstripQuotes(s)[|RstripQuotes(s)| - 1])
  {
    if s != [] && IsQuote(s[|s| - 1]) {
      var b := RstripQuotesSplits(s[..|s| - 1]);
      a := b + [s[|s| - 1]];
    } else {
      a := [];
    }
  }

  /** Stripping takes off the quotes at both ends, all of them and nothing else. */
  lemma StripQuotesSplits(s: string) returns (a: string, b: string)
    ensures AllQuotes(a) && AllQuotes(b) && s == a + StripQuotes(s) + b
    ensures StripQuotes(s) != [] ==> !IsQuote(StripQuotes(s)[0]) && !IsQuote(StripQuotes(s)[|StripQuotes(s)| - 1])
  {
    a := LstripQuotesSplits(s);
    b := RstripQuotesSplits(LstripQuotes(s));
    assert a + (StripQuotes(s) + b) == a + StripQuotes(s) + b;
  }

  /** A value between quotes is read as it stands between them. */
  lemma QuotedIsBare(q: char, s: string)
    requires IsQuote(q) && (s != [] ==> !IsQuote(s[0]) && !IsQuote(s[|s| - 1]))
    ensures StripQuotes([q] + s + [q]) == s
  {
    var v := [q] + s + [q];
    assert v[1..] == s + [q];
    if s == [] {
      assert [q][1..] == [] && s + [q] == [q];
      assert LstripQuotes([q]) == LstripQuotes([q][1..]);
    } else {
      assert LstripQuotes(v) == LstripQuotes(s + [q]) && LstripQuotes(s + [q]) == s + [q];
      assert (s + [q])[..|s|] == s && RstripQuotes(s) == s;
      assert RstripQuotes(s + [q]) == RstripQuotes((s + [q])[..|s|]);
    }
  }

  /**
   The first line that starts with the key decides: after `>`, `>-`, `|` or `|-` the lines
   that follow, up to one that starts in column one, without blanks and joined by spaces;
   else the rest of the line without its quotes.
   */
  lemma {:induction false} ScalarAt(frontmatter: seq<string>, key: string, from: nat, i: nat)
    requires from <= i < |frontmatter| && StartsWith(frontmatter[i], key + ":")
    requires forall j :: from <= j < i ==> !StartsWith(frontmatter[j], key + ":")
    ensures var value := Strip(frontmatter[i][|key| + 1..]);
            ScalarFrom(frontmatter, key, from) ==
            if value == ">" || value == ">-" || value == "|" || value == "|-"
            then Some(Join(" ", NonEmpty(Continuation(frontmatter[i + 1..])))) else Some(StripQuotes(value))
    decreases i - from
  {
    hide Strip, StripQuotes, Join, Continuation, NonEmpty, StartsWith, BLOCKS;
    if from < i {
      ScalarAt(frontmatter, key, from + 1, i);
    } else {
      StartsLong(frontmatter[i], key + ":");
      IsBlockMark(Strip(frontmatter[i][|key| + 1..]));
    }
  }

  /** Without such a line the key is missing. */
  lemma {:induction false} ScalarMissing(frontmatter: seq<string>, key: string, from: nat)
    requires from <= |frontmatter|
    requires forall i :: from <= i < |frontmatter| ==> !StartsWith(frontmatter[i], key + ":")
    ensures ScalarFrom(frontmatter, key, from).None?
    decreases |frontmatter| - from
  {
    hide StartsWith;
    if from < |frontmatter| { ScalarMissing(frontmatter, key, from + 1); }
  }

  lemma StartsLong(line: string, prefix: string)
    requires StartsWith(line, prefix)
    ensures |prefix| <= |line|
  {}

  lemma IsBlockMark(value: string)
    ensures value in BLOCKS <==> value == ">" || value == ">-" || value == "|" || value == "|-"
  {}

  /** The lines of a block: all up to the first that starts in column one, stripped. */
  lemma {:induction false} ContinuationExactly(ls: seq<string>)
    ensures var parts := Continuation(ls);
            && |parts| <= |ls|
            && (forall i :: 0 <= i < |parts| ==> parts[i] == Strip(ls[i]) && (ls[i] == "" || IsSpace(ls[i][0])))
            && (|parts| < |ls| ==> ls[|parts|] != "" && !IsSpace(ls[|parts|][0]))
  {
    hide Strip, IsSpace;
    if ls != [] { ContinuationExactly(ls[1..]); }
  }

  /** Blank parts drop out; the others stay, in their order. */
  lemma {:induction false} NonEmptyExactly(a: seq<string>, part: string, b: seq<string>)
    ensures NonEmpty(a + [part] + b) == NonEmpty(a) + (if part == "" then [] else [part]) + NonEmpty(b)
    ensures NonEmpty([]) == []
  {
    var parts := a + [part] + b;
    if a == [] {
      assert parts[0] == part && parts[1..] == b;
    } else {
      assert parts[0] == a[0] && parts[1..] == a[1..] + [part] + b;
      NonEmptyExactly(a[1..], part, b);
    }
  }

  /** Frontmatter lies between a first line `---` and the next one; without either it is an error, each its own. */
  lemma SplitsExactlyWhen(text: string, closing: nat)
    ensures var ls, split := Lines(text), SplitFrontmatter(text);
            && (split == Err(MissingFrontmatter) <==> ls == [] || ls[0] != "---")
            && (split == Err(Unterminated) <==> ls != [] && ls[0] == "---" && "---" !in ls[1..])
            && (ls != [] && ls[0] == "---" && 1 <= closing < |ls| && ls[closing] == "---"
                && "---" !in ls[1..closing] ==>
                  split == Ok((ls[1..closing], LstripNewlines(Join("\n", ls[closing + 1..])))))
  {
    hide Lines, Join, LstripNewlines;
    var ls := Lines(text);
    if ls != [] && 1 <= closing < |ls| && ls[closing] == FENCE && FENCE !in ls[1..closing] {
      IndexIs(ls, FENCE, 1, closing);
    }
    if ls != [] {
      var k := IndexFrom(ls, FENCE, 1);
      if k.Some? { assert ls[1..][k.value - 1] == FENCE; }
    }
  }

  /** A quoted plain value is read without its quotes. */
  lemma QuotedValueReads(before: seq<string>, after: seq<string>, key: string, q: char, s: string)
    requires forall i :: 0 <= i < |before| ==> !StartsWith(before[i], key + ":")
    requires IsQuote(q) && s != [] && !IsQuote(s[0]) && !IsQuote(s[|s| - 1])
    ensures Scalar(before + [key + ": " + ([q] + s + [q])] + after, key) == Some(s)
  {
    var v := [q] + s + [q];
    var line := key + ": " + v;
    var frontmatter := before + [line] + after;
    assert line[..|key| + 1] == key + ":" && line[|key| + 1..] == " " + v;
    QuotedIsBare(q, s);
    QuoteStrips(v);
    assert frontmatter[|before|] == line;
    assert forall i :: 0 <= i < |before| ==> frontmatter[i] == before[i];
    ScalarAt(frontmatter, key, 0, |before|);
    assert v !in BLOCKS;
    hide Strip, StripQuotes;
  }

  lemma QuoteStrips(v: string)
    requires v != [] && IsQuote(v[0]) && IsQuote(v[|v| - 1])
    ensures Strip(" " + v) == v
  {
    LstripSpace(" ", v);
    assert !IsSpace(v[0]) && !IsSpace(v[|v| - 1]);
  }

  /** The block lines of `scalar` */
  method BlockParts(frontmatter: seq<string>, start: nat) returns (parts: seq<string>)
    requires start <= |frontmatter|
    ensures parts == Continuation(frontmatter[start..])
  {
    parts := [];
    var i := start;
    while i < |frontmatter|
      invariant start <= i <= |frontmatter|
      invariant Continuation(frontmatter[start..]) == parts + Continuation(frontmatter[i..])
    {
      var line := frontmatter[i];
      assert frontmatter[i..][1..] == frontmatter[i + 1..];
      if line != [] && !IsSpace(line[0]) {
        break;
      }
      parts := parts + [Strip(line)];
      i := i + 1;
    }
  }

  /** `scalar` */
  method ReadScalar(frontmatter: seq<string>, key: string) returns (value: Result<string, Error>)
    ensures value == match Scalar(frontmatter, key) case Some(v) => Ok(v) case None => Err(MissingKey(key))
  {
    for index := 0 to |frontmatter|
      invariant Scalar(frontmatter, key) == ScalarFrom(frontmatter, key, index)
    {
      var line := frontmatter[index];
      if !StartsWith(line, key + ":") {
        continue;
      }
      var text := Strip(line[|key| + 1..]);
      if text in BLOCKS {
        var parts := BlockParts(frontmatter, index + 1);
        return Ok(Join(" ", NonEmpty(parts)));
      }
      return Ok(StripQuotes(text));
    }
    return Err(MissingKey(key));
  }

  // ---------- printing ----------

  /** The lines between `description: >-` and the closing fence; an empty block is one empty line. */
  function BlockLines(description: string): (ls: seq<string>)
    ensures ls != []
  {
    var ls := Packing.FoldedLines(description);
    if ls == [] then [""] else ls
  }

  const FOLDED: string := "description: >-"

  function NameLine(name: string): string {
    "name: " + name
  }

  function Fields(name: string, description: string): seq<string> {
    [NameLine(name), FOLDED] + BlockLines(description)
  }

  /** The rendered text around a finished block. */
  function RenderAround(name: string, block: string, note: string, body: string): string {
    Line(FENCE) + (Line(NameLine(name)) + (Line(FOLDED) + (Line(block) + (Line(FENCE) + Rest(note, body)))))
  }

  function Rest(note: string, body: string): string {
    "\n" + note + "\n\n" + Rstrip(body) + "\n"
  }

  /** The text `render_skill` returns. */
  function Render(name: string, description: string, note: string, body: string): string {
    RenderAround(name, Join("\n", Packing.FoldedLines(description)), note, body)
  }

  lemma BlockIsUnlines(description: string)
    ensures Line(Join("\n", Packing.FoldedLines(description))) == Unlines(BlockLines(description))
  {
    UnlinesJoin(BlockLines(description));
  }

  // ---------- the block ----------

  lemma {:induction false} FlatOfWords(pieces: seq<Packing.Piece>)
    requires AreWords(Packing.Flat(pieces))
    ensures forall i :: 0 <= i < |pieces| ==> AreWords(pieces[i])
  {
    if pieces != [] {
      var rest := Packing.Flat(pieces[1..]);
      var all := pieces[0] + rest;
      assert forall i :: 0 <= i < |rest| ==> rest[i] == all[|pieces[0]| + i];
      assert forall i :: 0 <= i < |pieces[0]| ==> pieces[0][i] == all[i];
      FlatOfWords(pieces[1..]);
      assert forall i :: 1 <= i < |pieces| ==> pieces[i] == pieces[1..][i - 1];
    }
  }

  /** Words joined by spaces start and end in a letter and hold no line boundary. */
  lemma {:induction false} JoinedWords(piece: seq<string>)
    requires piece != [] && AreWords(piece)
    ensures var s := Join(" ", piece);
            s != [] && !IsSpace(s[0]) && !IsSpace(s[|s| - 1]) && NoBreak(s)
  {
    if |piece| > 1 {
      JoinedWords(piece[1..]);
      assert IsWord(piece[0]);
    } else {
      assert IsWord(piece[0]);
    }
  }

  lemma StripIndent(s: string)
    requires s != [] && !IsSpace(s[0]) && !IsSpace(s[|s| - 1])
    ensures Strip(Packing.INDENT + s) == s
  {
    LstripSpace(Packing.INDENT, s);
  }

  predicate IsBlock(pieces: seq<Packing.Piece>) {
    forall i :: 0 <= i < |pieces| ==> pieces[i] != [] && AreWords(pieces[i])
  }

  lemma BlockPieces(description: string) returns (pieces: seq<Packing.Piece>)
    ensures IsBlock(pieces) && Packing.Flat(pieces) == Words(description)
    ensures Packing.FoldedLines(description) == Packing.Indented(pieces)
  {
    pieces := Packing.Pack(" ", Packing.LINE_LIMIT, Words(description));
    Packing.PackIsGreedy(" ", Packing.LINE_LIMIT, Words(description));
    WordsAreWords(description);
    FlatOfWords(pieces);
    forall i | 0 <= i < |pieces| ensures pieces[i] != [] {
      assert Packing.Fits(" ", Packing.LINE_LIMIT, pieces[i]);
    }
  }

  function Joined(pieces: seq<Packing.Piece>): seq<string> {
    if pieces == [] then [] else [Join(" ", pieces[0])] + Joined(pieces[1..])
  }

  /** Reading the printed lines back yields the pieces, joined. */
  lemma {:induction false} ContinuationOfBlock(pieces: seq<Packing.Piece>)
    requires IsBlock(pieces)
    ensures Continuation(Packing.Indented(pieces)) == Joined(pieces)
    ensures NonEmpty(Joined(pieces)) == Joined(pieces)
  {
    if pieces != [] {
      var ls := Packing.Indented(pieces);
      var rest := pieces[1..];
      assert pieces[0] != [] && AreWords(pieces[0]);
      assert forall i :: 0 <= i < |rest| ==> rest[i] == pieces[i + 1];
      JoinedWords(pieces[0]);
      StripIndent(Join(" ", pieces[0]));
      assert ls[0] == Packing.INDENT + Join(" ", pieces[0]) && IsSpace(ls[0][0]);
      assert ls[1..] == Packing.Indented(rest);
      ContinuationOfBlock(rest);
    }
  }

  /** Line breaks chosen for width disappear: joining the joined pieces joins all the words. */
  lemma {:induction false} JoinOfJoined(pieces: seq<Packing.Piece>)
    requires IsBlock(pieces)
    ensures Join(" ", Joined(pieces)) == Join(" ", Packing.Flat(pieces))
  {
    if |pieces| == 1 {
      assert pieces[1..] == [] && Packing.Flat(pieces) == pieces[0] + [];
      assert pieces[0] + [] == pieces[0];
    } else if pieces != [] {
      var rest := pieces[1..];
      assert IsBlock(rest) by { assert forall i :: 0 <= i < |rest| ==> rest[i] == pieces[i + 1]; }
      JoinOfJoined(rest);
      assert rest[0] != [] && Packing.Flat(rest) == rest[0] + Packing.Flat(rest[1..]);
      assert pieces[0] != [];
      Packing.JoinAppend(" ", pieces[0], Packing.Flat(rest));
      assert Joined(pieces)[1..] == Joined(rest) && |Joined(rest)| == 1 + |Joined(rest[1..])|;
    }
  }

  lemma DescriptionReads(description: string)
    ensures Join(" ", NonEmpty(Continuation(BlockLines(description)))) == Join(" ", Words(description))
  {
    var pieces := BlockPieces(description);
    ContinuationOfBlock(pieces);
    JoinOfJoined(pieces);
    if pieces == [] {
      assert BlockLines(description) == [""];
      assert Continuation([""]) == [Strip("")] + Continuation([""][1..]);
      assert Continuation([""]) == [""];
      assert NonEmpty([""]) == [] + NonEmpty([""][1..]);
      assert NonEmpty([""]) == [];
    }
  }

  // ---------- round trips ----------

  lemma NameLineShape(name: string)
    ensures var l := NameLine(name);
            && l[0] == 'n' && StartsWith(l, "name:") && l[|"name"| + 1..] == " " + name
            && (NoBreak(name) ==> NoBreak(l))
  {}

  lemma FoldedShape()
    ensures NoBreak(FOLDED) && FOLDED[0] == 'd' && StartsWith(FOLDED, "description:") && !Continues(FOLDED)
    ensures Strip(FOLDED[|"description"| + 1..]) == ">-" && ">-" in BLOCKS
  {
    assert FOLDED[|"description"| + 1..] == " " + ">-";
    LstripSpace(" ", ">-");
    assert BLOCKS[1] == ">-";
  }

  lemma BlockLinesShape(description: string)
    ensures forall i :: 0 <= i < |BlockLines(description)| ==>
              && NoBreak(BlockLines(description)[i])
              && (BlockLines(description)[i] == [] || BlockLines(description)[i][0] == ' ')
  {
    hide Join, Packing.FoldedLines;
    var ls := BlockLines(description);
    var pieces := BlockPieces(description);
    if pieces != [] {
      forall i | 0 <= i < |ls| ensures NoBreak(ls[i]) && ls[i] != [] && ls[i][0] == ' ' {
        assert ls[i] == Packing.INDENT + Join(" ", pieces[i]);
        JoinedWords(pieces[i]);
      }
    }
  }

  lemma FieldsAreNoFence(name: string, description: string)
    ensures FENCE !in Fields(name, description)
  {
    hide BlockLines, NameLine, FOLDED;
    NameLineShape(name);
    FoldedShape();
    BlockLinesShape(description);
    assert FENCE[0] == '-';
  }

  lemma RenderedLines(name: string, description: string, note: string, body: string)
    requires OneLine(name)
    ensures Lines(Render(name, description, note, body)) ==
            [FENCE] + Fields(name, description) + [FENCE] + Lines(Rest(note, body))
  {
    hide Lines, Line, NameLine, FOLDED, FENCE, BlockLines, Rest, Unlines, Join, Packing.FoldedLines;
    NameLineShape(name);
    FoldedShape();
    BlockLinesShape(description);
    FenceShape();
    var block := BlockLines(description);
    var r5 := Rest(note, body);
    var r4 := Line(FENCE) + r5;
    var r3 := Unlines(block) + r4;
    var r2 := Line(FOLDED) + r3;
    var r1 := Line(NameLine(name)) + r2;
    BlockIsUnlines(description);
    LinesCons(FENCE, r5);
    LinesOfUnlines(block, r4);
    LinesCons(FOLDED, r3);
    LinesCons(NameLine(name), r2);
    LinesCons(FENCE, r1);
    Gather(FENCE, NameLine(name), FOLDED, block, Lines(r5));
  }

  lemma FenceShape()
    ensures NoBreak(FENCE)
  {}

  lemma Gather(a: string, b: string, c: string, block: seq<string>, rest: seq<string>)
    ensures [a] + ([b] + ([c] + (block + ([a] + rest)))) == [a] + ([b, c] + block) + [a] + rest
  {}

  /** The printed file splits into exactly the printed fields and the lines after the fence. */
  lemma RenderedSplits(name: string, description: string, note: string, body: string)
    requires OneLine(name)
    ensures var split := SplitFrontmatter(Render(name, description, note, body));
            && split.Ok? && split.value.0 == Fields(name, description)
            && ('\r' !in Rest(note, body) ==> split.value.1 == LstripNewlines(Join("\n", Lines(Rest(note, body)))))
  {
    hide Render, Rest, Fields, Lines, Join, FENCE;
    var fields := Fields(name, description);
    var rest := Lines(Rest(note, body));
    RenderedLines(name, description, note, body);
    FieldsAreNoFence(name, description);
    var ls := [FENCE] + fields + [FENCE] + rest;
    var closing := 1 + |fields|;
    assert ls[closing] == FENCE;
    assert ls[1..closing] == fields;
    assert ls[closing + 1..] == rest;
    IndexIs(ls, FENCE, 1, closing);
  }

  lemma ScalarOfFields(name: string, description: string)
    ensures Scalar(Fields(name, description), "description") == Some(Join(" ", Words(description)))
  {
    hide BlockLines, NameLine, FOLDED, Words, Join, Continuation, NonEmpty, Strip;
    var fields := Fields(name, description);
    NameLineShape(name);
    FoldedShape();
    assert fields[0] == NameLine(name) && fields[1] == FOLDED;
    assert !StartsWith(fields[0], "description:") by { assert "description:"[0] == 'd'; }
    assert fields[2..] == BlockLines(description);
    DescriptionReads(description);
    assert Scalar(fields, "description") == ScalarFrom(fields, "description", 1);
  }

  /** Reading a printed skill returns the description with each run of whitespace as one space, whatever it was. */
  lemma RenderedDescriptionParses(name: string, description: string, note: string, body: string)
    requires OneLine(name)
    ensures var split := SplitFrontmatter(Render(name, description, note, body));
            split.Ok? && Scalar(split.value.0, "description") == Some(Join(" ", Words(description)))
  {
    hide Render, Fields, Lines, Join, Words, Scalar, SplitFrontmatter;
    RenderedSplits(name, description, note, body);
    ScalarOfFields(name, description);
  }

  lemma StripShrinks(s: string)
    ensures |Strip(s)| < |s| || Strip(s) == s
  {
    var w := LstripSplits(s);
    var v := RstripSplits(Lstrip(s));
  }

  lemma {:induction false} LstripQuotesShrinks(s: string)
    ensures |LstripQuotes(s)| < |s| || LstripQuotes(s) == s
  {
    if s != [] { LstripQuotesShrinks(s[1..]); }
  }

  lemma {:induction false} RstripQuotesShrinks(s: string)
    ensures |RstripQuotes(s)| < |s| || RstripQuotes(s) == s
  {
    if s != [] { RstripQuotesShrinks(s[..|s| - 1]); }
  }

  /** The name, printed unquoted, is read back exactly when it needs no quoting. */
  lemma RenderedNameParses(name: string, description: string, note: string, body: string)
    requires OneLine(name)
    ensures var split := SplitFrontmatter(Render(name, description, note, body));
            && split.Ok?
            && (Scalar(split.value.0, "name") == Some(name) <==>
                Strip(name) == name && StripQuotes(name) == name && name !in BLOCKS)
  {
    hide Render, Lines, Join, Fields, SplitFrontmatter, Scalar, Strip, StripQuotes;
    RenderedSplits(name, description, note, body);
    NameOfFields(name, description);
    StripShrinks(name);
    StripQuotesShrinks(Strip(name));
  }

  lemma StripQuotesShrinks(s: string)
    ensures |StripQuotes(s)| < |s| || StripQuotes(s) == s
  {
    LstripQuotesShrinks(s);
    RstripQuotesShrinks(LstripQuotes(s));
  }

  lemma NameOfFields(name: string, description: string)
    ensures Scalar(Fields(name, description), "name")
              == Some(if Strip(name) in BLOCKS then [] else StripQuotes(Strip(name)))
  {
    hide BlockLines, NameLine, FOLDED, Strip, StripQuotes, BLOCKS;
    var fields := Fields(name, description);
    NameLineShape(name);
    FoldedShape();
    assert fields[0] == NameLine(name);
    StripIgnoresSpace(" ", name, []);
    assert " " + name + [] == " " + name;
    assert fields[1..][0] == FOLDED;
    assert Continuation(fields[1..]) == [];
  }

  // ---------- the block, read as YAML ----------

  /** The spaces a line starts with. */
  function Indent(line: string): (n: nat)
    ensures n <= |line|
    ensures n < |line| ==> line[n] != ' '
  {
    if line == [] || line[0] != ' ' then 0 else 1 + Indent(line[1..])
  }

  /** The line holds nothing but spaces. */
  predicate IsBlank(line: string) {
    Indent(line) == |line|
  }

  /** The indentation of a block scalar: that of its first line that is not blank. */
  function BlockIndent(ls: seq<string>): nat {
    if ls == [] then 0 else if IsBlank(ls[0]) then BlockIndent(ls[1..]) else Indent(ls[0])
  }

  /** The contents of the lines beyond the indentation; None when one starts before it. */
  function Unindented(ls: seq<string>, n: nat): Option<seq<string>> {
    if ls == [] then Some([])
    else
      var rest := Unindented(ls[1..], n);
      if rest.None? then None
      else if |ls[0]| >= n && Indent(ls[0]) >= n then Some([ls[0][n..]] + rest.value)
      else if IsBlank(ls[0]) then Some([""] + rest.value)
      else None
  }

  function LeadingEmpty(contents: seq<string>): (n: nat)
    ensures n <= |contents|
  {
    if contents == [] || contents[0] != "" then 0 else 1 + LeadingEmpty(contents[1..])
  }

  function Newlines(n: nat): string {
    if n == 0 then "" else "\n" + Newlines(n - 1)
  }

  /** A line that is neither empty nor more indented than the block takes part in folding. */
  predicate Folds(content: string) {
    content != "" && content[0] != ' ' && content[0] != '\t'
  }

  /**
   Line folding (section 8.1.3 of YAML 1.2.2): a single break between two lines that fold
   becomes a space, further breaks are kept, and so are those around more indented lines.
   Breaks at the end are left to chomping.
   */
  function Folded(contents: seq<string>): string
    decreases |contents|
  {
    if contents == [] then ""
    else
      var empty := LeadingEmpty(contents[1..]);
      var rest := contents[1 + empty..];
      if rest == [] then contents[0]
      else
        var gap :=
          if !Folds(contents[0]) || !Folds(rest[0]) then Newlines(empty + 1)
          else if empty == 0 then " " else Newlines(empty);
        contents[0] + gap + Folded(rest)
  }

  /** A folded block scalar with strip chomping (section 8.1.1.2), which drops the breaks at its end. */
  function FoldedStrip(ls: seq<string>): Option<string> {
    var contents := Unindented(ls, BlockIndent(ls));
    if contents.None? then None
    else
      var empty := LeadingEmpty(contents.value);
      if empty == |contents.value| then Some("") else Some(Newlines(empty) + Folded(contents.value[empty..]))
  }

  lemma IndentOfPiece(s: string)
    requires s != [] && !IsSpace(s[0])
    ensures Indent(Packing.INDENT + s) == 2 && !IsBlank(Packing.INDENT + s) && (Packing.INDENT + s)[2..] == s
  {
    var line := Packing.INDENT + s;
    assert line[1..] == " " + s && (" " + s)[1..] == s;
    assert Indent(s) == 0;
  }

  lemma {:induction false} UnindentedBlock(pieces: seq<Packing.Piece>)
    requires IsBlock(pieces)
    ensures Unindented(Packing.Indented(pieces), 2) == Some(Joined(pieces))
    ensures forall i :: 0 <= i < |Joined(pieces)| ==> Folds(Joined(pieces)[i])
  {
    hide Join, Indent, IsBlank;
    if pieces != [] {
      var ls, rest := Packing.Indented(pieces), pieces[1..];
      assert forall i :: 0 <= i < |rest| ==> rest[i] == pieces[i + 1];
      JoinedWords(pieces[0]);
      IndentOfPiece(Join(" ", pieces[0]));
      assert ls[0] == Packing.INDENT + Join(" ", pieces[0]);
      assert ls[1..] == Packing.Indented(rest);
      UnindentedBlock(rest);
    }
  }

  lemma {:induction false} FoldedJoins(contents: seq<string>)
    requires forall i :: 0 <= i < |contents| ==> Folds(contents[i])
    ensures Folded(contents) == Join(" ", contents)
    ensures LeadingEmpty(contents) == 0
  {
    if |contents| > 1 {
      var rest := contents[1..];
      FoldedJoins(rest);
      assert contents[1 + LeadingEmpty(rest)..] == rest;
    }
  }

  /** A YAML reader of the printed block finds what the repository's own reader finds. */
  lemma YamlReadsDescription(name: string, description: string, note: string, body: string)
    requires OneLine(name)
    ensures var split := SplitFrontmatter(Render(name, description, note, body));
            && split.Ok? && |split.value.0| > 2 && split.value.0[1] == "description: >-"
            && FoldedStrip(split.value.0[2..]) == Some(Join(" ", Words(description)))
            && FoldedStrip(split.value.0[2..]) == Scalar(split.value.0, "description")
  {
    hide Render, Lines, SplitFrontmatter, Scalar, Words, Join, Rest;
    RenderedSplits(name, description, note, body);
    ScalarOfFields(name, description);
    var fields := Fields(name, description);
    assert fields[1] == FOLDED && fields[2..] == BlockLines(description);
    BlockReadsAsYaml(description);
  }

  lemma BlockReadsAsYaml(description: string)
    ensures FoldedStrip(BlockLines(description)) == Some(Join(" ", Words(description)))
  {
    hide Words, Folded;
    var pieces := BlockPieces(description);
    if pieces == [] {
      assert BlockLines(description) == [""];
      EmptyBlock();
    } else {
      hide Join, Indent;
      UnindentedBlock(pieces);
      FoldedJoins(Joined(pieces));
      JoinOfJoined(pieces);
      var ls := BlockLines(description);
      assert pieces[0] != [] && AreWords(pieces[0]);
      JoinedWords(pieces[0]);
      IndentOfPiece(Join(" ", pieces[0]));
      assert ls[0] == Packing.INDENT + Join(" ", pieces[0]);
      assert BlockIndent(ls) == 2;
      assert Joined(pieces) != [];
      assert "" + Folded(Joined(pieces)) == Folded(Joined(pieces));
    }
  }

  lemma EmptyBlock()
    ensures FoldedStrip([""]) == Some("") && Join(" ", []) == ""
  {
    assert BlockIndent([""]) == BlockIndent([""][1..]);
    assert Unindented([""][1..], 0) == Some([]);
    assert LeadingEmpty([""][1..]) == 0;
  }

  lemma NoReturns(t: string)
    requires OnlyNewlines(t)
    ensures '\r' !in Line(t)
  {
    forall i | 0 <= i < |t| ensures t[i] != '\r' {}
  }

  /** The text after the frontmatter is read back as it was printed. */
  lemma RenderedBodyParses(name: string, description: string, note: string, body: string)
    requires OneLine(name)
    requires note != [] && note[0] != '\n' && OnlyNewlines(note) && OnlyNewlines(Rstrip(body))
    ensures var split := SplitFrontmatter(Render(name, description, note, body));
            split.Ok? && split.value.1 == note + "\n\n" + Rstrip(body)
  {
    hide Lines, Rstrip, Join, Render, Fields, SplitFrontmatter;
    RenderedSplits(name, description, note, body);
    var text := note + "\n\n" + Rstrip(body);
    assert OnlyNewlines("\n" + text);
    JoinLines("\n" + text);
    assert Rest(note, body) == Line("\n" + text);
    assert '\r' !in Line("\n" + text) by { NoReturns("\n" + text); }
    assert ("\n" + text)[1..] == text && text[0] == note[0];
  }

  /** Printing what was read prints the same text: the printed form is a fixed point. */
  lemma RerenderIsStable(name: string, description: string, note: string, body: string)
    requires OneLine(name)
    ensures var split := SplitFrontmatter(Render(name, description, note, body));
            && split.Ok? && Scalar(split.value.0, "description").Some?
            && Render(name, Scalar(split.value.0, "description").value, note, body)
                 == Render(name, description, note, body)
  {
    RenderedDescriptionParses(name, description, note, body);
    WordsAreWords(description);
    WordsOfJoin(Words(description));
  }

  // ---------- the whole program ----------

  const VERSION_KEY: string := "maestro-skill-version:"

  /** `source_version` */
  function VersionFrom(frontmatter: seq<string>, k: nat): string
    requires k <= |frontmatter|
    decreases |frontmatter| - k
  {
    if k == |frontmatter| then "unknown"
    else if StartsWith(frontmatter[k], VERSION_KEY) then
      Strip(frontmatter[k][|VERSION_KEY|..])
    else VersionFrom(frontmatter, k + 1)
  }

  const GENERATED: string := "<!-- Generated from "

  const HANDS_OFF: string := ". Do not edit directly. -->"

  function Note(name: string, version: string): string {
    GENERATED + (".claude/skills/" + name + "/SKILL.md") +
    (if version == "unknown" then "" else " " + ("(maestro-skill-version: " + version + ")")) + HANDS_OFF
  }

  /** The note names the skill's source and, if there is one, the version its frontmatter gives. */
  lemma NoteSays(name: string, version: string)
    ensures exists a, b :: Note(name, version) == a + (".claude/skills/" + name + "/SKILL.md") + b
    ensures version != "unknown" ==>
              exists a, b :: Note(name, version) == a + ("(maestro-skill-version: " + version + ")") + b
  {
    hide GENERATED, HANDS_OFF;
    var path := ".claude/skills/" + name + "/SKILL.md";
    var said := "(maestro-skill-version: " + version + ")";
    var rest := if version == "unknown" then "" else " " + said;
    assert Note(name, version) == GENERATED + path + (rest + HANDS_OFF);
    if version != "unknown" { assert Note(name, version) == (GENERATED + path + " ") + said + HANDS_OFF; }
  }

  /** The version is what follows the key on the first line that starts with it. */
  lemma {:induction false} VersionAt(frontmatter: seq<string>, from: nat, i: nat)
    requires from <= i < |frontmatter| && StartsWith(frontmatter[i], VERSION_KEY)
    requires forall j :: from <= j < i ==> !StartsWith(frontmatter[j], VERSION_KEY)
    ensures VersionFrom(frontmatter, from) == Strip(frontmatter[i][|VERSION_KEY|..])
    decreases i - from
  {
    hide Strip, StartsWith, VERSION_KEY;
    if from < i { VersionAt(frontmatter, from + 1, i); } else { StartsLong(frontmatter[i], VERSION_KEY); }
  }

  lemma {:induction false} VersionMissing(frontmatter: seq<string>, from: nat)
    requires from <= |frontmatter|
    requires forall i :: from <= i < |frontmatter| ==> !StartsWith(frontmatter[i], VERSION_KEY)
    ensures VersionFrom(frontmatter, from) == "unknown"
    decreases |frontmatter| - from
  {
    hide StartsWith, VERSION_KEY;
    if from < |frontmatter| { VersionMissing(frontmatter, from + 1); }
  }

  lemma RenderIs(name: string, description: string, note: string, body: string)
    ensures Render(name, description, note, body) ==
            RenderAround(name, Join("\n", Packing.FoldedLines(description)), note, body)
  {}

  /** `render_skill`; the two rewriters stand for the command substitutions. */
  method RenderSkill(name: string, source: string, adaptCommands: string -> string, adaptBody: string -> string)
      returns (text: Result<string, Error>)
    requires OneLine(name)
    ensures SplitFrontmatter(source).Err? ==> text == Err(SplitFrontmatter(source).error)
    ensures text.Ok? <==> && SplitFrontmatter(source).Ok?
                          && Scalar(SplitFrontmatter(source).value.0, "name") == Some(name)
                          && Scalar(SplitFrontmatter(source).value.0, "description").Some?
    ensures text.Ok? ==>
              var (frontmatter, body) := SplitFrontmatter(source).value;
              var description := adaptCommands(Scalar(frontmatter, "description").value);
              && text.value == Render(name, description, Note(name, VersionFrom(frontmatter, 0)), adaptBody(body))
              && SplitFrontmatter(text.value).Ok?
              && Scalar(SplitFrontmatter(text.value).value.0, "description") == Some(Join(" ", Words(description)))
  {
    hide Render, RenderAround, SplitFrontmatter, Scalar, Note, VersionFrom, Words, Join, Packing.FoldedLines;
    var split := SplitFrontmatter(source);
    if split.Err? {
      return Err(split.error);
    }
    var (frontmatter, body) := split.value;
    var found := ReadScalar(frontmatter, "name");
    if found.Err? {
      return found;
    }
    if found.value != name {
      return Err(NameMismatch(found.value));
    }
    var read := ReadScalar(frontmatter, "description");
    if read.Err? {
      return read;
    }
    var description := adaptCommands(read.value);
    var note := Note(name, VersionFrom(frontmatter, 0));
    var block := Packing.YamlBlock(description);
    RenderIs(name, description, note, adaptBody(body));
    RenderedDescriptionParses(name, description, note, adaptBody(body));
    return Ok(RenderAround(name, block, note, adaptBody(body)));
  }
}
