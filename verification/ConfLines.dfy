/**
 What a django.conf file means, and what applying and restoring overrides does to
 it line by line (testit/helpers.py, mojo/helpers/settings/parser.py).

 The loader takes every line holding '=' as an assignment and the last one wins.
 The override helpers also refuse lines whose first character is '#', so the two
 agree on every key that does not itself start with '#'.
 */
module ConfLines {
  import opened Wrappers
  import opened Text
  import opened ConfValues

  // ---------- one line ----------

  /** The key and value the settings loader reads off a line. */
  function Assignment(line: string): Option<(string, string)> {
    var s := Strip(line);
    if '=' in s then
      var i := Find(s, '=');
      Some((Strip(s[..i]), Strip(s[i + 1..])))
    else None
  }

  predicate Assigns(line: string, key: string) {
    Assignment(line).Some? && Assignment(line).value.0 == key
  }

  /** `_conf_line_key`: as the loader, except that a '#' line assigns nothing. */
  function ConfLineKey(line: string): Option<string> {
    var s := Strip(line);
    if '=' in s && s[0] != '#' then Some(Strip(s[..Find(s, '=')])) else None
  }

  /** The keys an override may use; every Python identifier is one. */
  predicate WellFormedKey(k: string) {
    k != "" && Strip(k) == k && '=' !in k && OneLine(k) && k[0] != '#'
  }

  /** On a well-formed key the helpers and the loader read a line alike. */
  lemma ConfLineKeyAgrees(line: string, k: string)
    requires WellFormedKey(k)
    ensures ConfLineKey(line) == Some(k) <==> Assigns(line, k)
  {
    var s := Strip(line);
    if '=' in s && s[0] == '#' {
      var i := Find(s, '=');
      assert s[..i] == [] + ['#'] + s[1..i];
      StripAround([], '#', s[1..i]);
    }
  }

  /** On a comment with an '=' they do not: the loader takes it for an assignment to a key that starts with '#'. */
  lemma CommentsReadDifferently(a: string, b: string)
    requires '=' !in a
    ensures ConfLineKey("#" + a + "=" + b) == None && Assignment("#" + a + "=" + b) == Some((Strip("#" + a), Strip(b)))
    ensures ConfLineKey("# KEY = v") == None && Assignment("# KEY = v") == Some(("# KEY", "v"))
  {
    hide Strip;
    CommentAt(a, b);
    CommentAt(" KEY ", " v");
    assert "#" + " KEY " + "=" + " v" == "# KEY = v";
    StripIgnoresSpace([], "# KEY", " ");
    assert [] + "# KEY" + " " == "#" + " KEY ";
    StripIgnoresSpace(" ", "v", []);
    assert " " + "v" + [] == " v";
    WordsStrip();
  }

  lemma WordsStrip()
    ensures Strip("# KEY") == "# KEY" && Strip("v") == "v"
  {}

  lemma CommentAt(a: string, b: string)
    requires '=' !in a
    ensures ConfLineKey("#" + a + "=" + b) == None && Assignment("#" + a + "=" + b) == Some((Strip("#" + a), Strip(b)))
  {
    AssignmentAt("#" + a, b);
    var line := "#" + a + "=" + b;
    assert line == [] + ['#'] + (a + "=" + b);
    StripAround([], '#', a + "=" + b);
    assert Strip(line)[0] == '#';
    hide Strip, Assignment;
  }

  /** Where the first '=' of a line stands decides its key and its value. */
  lemma AssignmentAt(a: string, b: string)
    requires '=' !in a
    ensures Assignment(a + "=" + b) == Some((Strip(a), Strip(b)))
  {
    var s := Strip(a + "=" + b);
    StripAround(a, '=', b);
    var w := LstripSplits(a);
    assert s == Lstrip(a) + ['='] + Rstrip(b);
    FindAfter(Lstrip(a), '=', Rstrip(b));
    assert s[|Lstrip(a)|] == '=';
    assert s[..|Lstrip(a)|] == Lstrip(a);
    assert s[|Lstrip(a)| + 1..] == Rstrip(b);
    StripLstrip(a);
    StripRstrip(b);
  }

  /** A line boundary added at the end does not change what a line assigns. */
  lemma AssignmentIgnoresNewline(line: string)
    ensures Assignment(line + "\n") == Assignment(line)
    ensures Assignment("\n") == None
  {
    StripIgnoresSpace([], line, "\n");
    assert [] + line + "\n" == line + "\n";
    StripIgnoresSpace([], [], "\n");
    assert [] + [] + "\n" == "\n";
  }

  // ---------- values and dictionaries ----------

  function OverrideLine(k: string, v: Value): string {
    k + " = " + FormatConfValue(v) + "\n"
  }

  lemma OverrideLineShape(k: string, v: Value)
    requires WellFormedKey(k) && IsOneLine(v)
    ensures IsLine(OverrideLine(k, v)) && EndsInNewline(OverrideLine(k, v))
    ensures Assignment(OverrideLine(k, v)) == Some((k, Strip(FormatConfValue(v))))
  {
    hide Assignment, Strip, FormatConfValue, ReadAs, ParseValue;
    var f, line := FormatConfValue(v), OverrideLine(k, v);
    FormattedReads(v);
    assert line == (k + " ") + "=" + (" " + f + "\n");
    AssignmentAt(k + " ", " " + f + "\n");
    StripIgnoresSpace([], k, " ");
    assert [] + k + " " == k + " ";
    StripIgnoresSpace(" ", f, "\n");
    assert line[..|line| - 1] == k + " = " + f;
  }

  /** A Python dict: the values by key, and the order the keys were inserted in. */
  datatype Dict<+V> = Dict(order: seq<string>, at: map<string, V>) {
    ghost predicate Valid() {
      && (forall k :: k in order <==> k in at)
      && (forall i, j :: 0 <= i < j < |order| ==> order[i] != order[j])
    }
  }

  type Overrides = Dict<Value>
  /** For each captured key the line that set it, or None when it was unset. */
  type Snapshot = Dict<Option<string>>

  ghost predicate WellFormedOverrides(ov: Overrides) {
    ov.Valid() && forall k :: k in ov.at ==> WellFormedKey(k) && IsOneLine(ov.at[k])
  }

  ghost predicate WellFormedSnapshot(snap: Snapshot) {
    && snap.Valid()
    && (forall k :: k in snap.at ==> WellFormedKey(k))
    && (forall k :: k in snap.at && snap.at[k].Some? ==> IsLine(snap.at[k].value) && Assigns(snap.at[k].value, k))
  }

  // ---------- last-wins meaning ----------

  function LastLine(ls: seq<string>, k: string): (r: Option<string>)
    ensures r.Some? ==> Assigns(r.value, k) && r.value in ls
  {
    if ls == [] then None
    else
      var rest := LastLine(ls[1..], k);
      if rest.Some? then rest else if Assigns(ls[0], k) then Some(ls[0]) else None
  }

  lemma {:induction false} LastLineExists(ls: seq<string>, k: string, i: nat)
    requires i < |ls| && Assigns(ls[i], k)
    ensures LastLine(ls, k).Some?
  {
    if i > 0 { LastLineExists(ls[1..], k, i - 1); }
  }

  function ValueOf(line: Option<string>): Option<string> {
    if line.Some? && Assignment(line.value).Some? then Some(Assignment(line.value).value.1) else None
  }

  /** The value the loader ends up with for a key. */
  function Setting(ls: seq<string>, k: string): Option<string> {
    ValueOf(LastLine(ls, k))
  }

  function TextSetting(t: string, k: string): Option<string> {
    Setting(SplitLines(t), k)
  }

  function Parsed(text: Option<string>): Option<Typed> {
    if text.None? then None else Some(ParseValue(text.value))
  }

  /** The typed value the loader ends up with. */
  function TypedSetting(t: string, k: string): Option<Typed> {
    Parsed(TextSetting(t, k))
  }

  lemma {:induction false} LastLineAppend(a: seq<string>, b: seq<string>, k: string)
    ensures LastLine(a + b, k) == if LastLine(b, k).Some? then LastLine(b, k) else LastLine(a, k)
  {
    if a == [] {
      assert a + b == b;
    } else {
      assert (a + b)[1..] == a[1..] + b;
      LastLineAppend(a[1..], b, k);
    }
  }

  lemma SettingAppend(a: seq<string>, b: seq<string>, k: string)
    ensures Setting(a + b, k) == if Setting(b, k).Some? then Setting(b, k) else Setting(a, k)
  {
    LastLineAppend(a, b, k);
  }

  /** A line with an '=' anywhere is an assignment, and no other. */
  lemma AssignsExactlyWhen(line: string)
    ensures Assignment(line).Some? <==> '=' in line
  {
    var w := LstripSplits(line);
    var v := RstripSplits(Lstrip(line));
    assert line == w + Strip(line) + v;
    hide Strip;
  }

  /** The loader's own loop computes exactly the last-wins meaning, each value typed. */
  method LoadConfig(t: string) returns (context: map<string, Typed>)
    ensures forall k :: TypedSetting(t, k) == if k in context then Some(context[k]) else None
  {
    hide ParseValue;
    var lines := SplitLines(t);
    context := map[];
    for i := 0 to |lines|
      invariant forall k :: Parsed(Setting(lines[..i], k)) == if k in context then Some(context[k]) else None
    {
      var a := Assignment(lines[i]);
      if a.Some? {
        context := context[a.value.0 := ParseValue(a.value.1)];
      }
      assert lines[..i + 1] == lines[..i] + [lines[i]];
      forall k ensures Parsed(Setting(lines[..i + 1], k)) == if k in context then Some(context[k]) else None {
        LastLineAppend(lines[..i], [lines[i]], k);
      }
    }
    assert lines[..|lines|] == lines;
  }

  // ---------- joining ----------

  predicate EndsInNewline(p: string) {
    p != "" && p[|p| - 1] == '\n'
  }

  function WithNewline(p: string): string {
    if p != "" && !EndsInNewline(p) then p + "\n" else p
  }

  function JoinConfLines(parts: seq<string>): string {
    if parts == [] then ""
    else if |parts| == 1 then parts[0]
    else WithNewline(parts[0]) + JoinConfLines(parts[1..])
  }

  /** The lines one part becomes once it is joined and split again. */
  function Pieces(p: string): seq<string> {
    if EndsInNewline(p) then [p]
    else if Terminated(p) then [p, "\n"]
    else [p + "\n"]
  }

  function Resplit(parts: seq<string>): seq<string> {
    if |parts| <= 1 then parts else Pieces(parts[0]) + Resplit(parts[1..])
  }

  predicate AllLines(parts: seq<string>) {
    forall i :: 0 <= i < |parts| ==> IsLine(parts[i])
  }

  lemma PiecesShape(p: string)
    requires IsLine(p)
    ensures forall i :: 0 <= i < |Pieces(p)| ==> Terminated(Pieces(p)[i])
    ensures Concat(Pieces(p)) == WithNewline(p)
  {
    var q := Pieces(p);
    if EndsInNewline(p) {
      assert q[1..] == [];
    } else if Terminated(p) {
      assert Concat(q[1..][1..]) == [];
      assert q[1..] == ["\n"];
      assert Concat(q[1..]) == "\n";
    } else {
      assert q[1..] == [];
      assert (p + "\n")[..|p|] == p;
      assert p == p[..|p| - 1] + [p[|p| - 1]];
    }
  }

  lemma {:induction false} ResplitShape(parts: seq<string>)
    requires AllLines(parts)
    ensures AreLines(Resplit(parts)) && Concat(Resplit(parts)) == JoinConfLines(parts)
  {
    if |parts| == 1 {
      assert parts[1..] == [];
    } else if |parts| > 1 {
      var head, tail := Pieces(parts[0]), Resplit(parts[1..]);
      PiecesShape(parts[0]);
      ResplitShape(parts[1..]);
      ConcatAppend(head, tail);
      var all := head + tail;
      forall i | 0 <= i < |all| ensures IsLine(all[i]) && (i < |all| - 1 ==> Terminated(all[i])) {
        if i >= |head| { assert all[i] == tail[i - |head|]; }
      }
    }
  }

  lemma SplitJoined(parts: seq<string>)
    requires AllLines(parts)
    ensures SplitLines(JoinConfLines(parts)) == Resplit(parts)
  {
    ResplitShape(parts);
    SplitLinesConcat(Resplit(parts));
  }

  lemma {:induction false} ResplitKeepsSettings(parts: seq<string>, k: string)
    ensures Setting(Resplit(parts), k) == Setting(parts, k)
  {
    hide Assignment, Strip;
    if |parts| > 1 {
      var p := parts[0];
      ResplitKeepsSettings(parts[1..], k);
      SettingAppend(Pieces(p), Resplit(parts[1..]), k);
      SettingAppend([p], parts[1..], k);
      assert parts == [p] + parts[1..];
      AssignmentIgnoresNewline(p);
      if Pieces(p) == [p, "\n"] {
        SettingAppend([p], ["\n"], k);
        assert [p] + ["\n"] == [p, "\n"];
      }
    }
  }

  lemma {:induction false} ResplitIdentity(parts: seq<string>)
    requires forall i :: 0 <= i < |parts| - 1 ==> EndsInNewline(parts[i])
    ensures Resplit(parts) == parts
  {
    if |parts| > 1 {
      ResplitIdentity(parts[1..]);
      assert parts == [parts[0]] + parts[1..];
    }
  }

  // ---------- capture ----------

  function CaptureLines(ls: seq<string>, keys: seq<string>): Snapshot {
    Dict(keys, map k | k in keys :: LastLine(ls, k))
  }

  lemma CaptureIsWellFormed(ls: seq<string>, ov: Overrides)
    requires WellFormedOverrides(ov) && AllLines(ls)
    ensures WellFormedSnapshot(CaptureLines(ls, ov.order))
    ensures CaptureLines(ls, ov.order).at.Keys == ov.at.Keys
  {
    forall k | k in ov.at && LastLine(ls, k).Some? ensures IsLine(LastLine(ls, k).value) {
      var i :| 0 <= i < |ls| && ls[i] == LastLine(ls, k).value;
    }
  }

  // ---------- apply ----------

  function ReplaceLine(line: string, ov: Overrides): string {
    var k := ConfLineKey(line);
    if k.Some? && k.value in ov.at then OverrideLine(k.value, ov.at[k.value]) else line
  }

  function Replaced(ls: seq<string>, ov: Overrides): (r: seq<string>)
    ensures |r| == |ls|
  {
    if ls == [] then [] else [ReplaceLine(ls[0], ov)] + Replaced(ls[1..], ov)
  }

  function MissingPart(ls: seq<string>, k: string, at: map<string, Value>): seq<string> {
    if LastLine(ls, k).None? && k in at then [OverrideLine(k, at[k])] else []
  }

  /** The override lines appended for the keys no line assigned, in dict order. */
  function Missing(ls: seq<string>, order: seq<string>, at: map<string, Value>): seq<string> {
    if order == [] then [] else MissingPart(ls, order[0], at) + Missing(ls, order[1..], at)
  }

  function ApplyLines(ls: seq<string>, ov: Overrides): seq<string> {
    Replaced(ls, ov) + Missing(ls, ov.order, ov.at)
  }

  lemma {:induction false} ReplacedSettings(ls: seq<string>, ov: Overrides, k: string)
    requires WellFormedOverrides(ov)
    ensures Setting(Replaced(ls, ov), k) ==
            if k in ov.at && LastLine(ls, k).Some? then Some(Strip(FormatConfValue(ov.at[k]))) else Setting(ls, k)
  {
    if ls != [] {
      var c := ConfLineKey(ls[0]);
      var r := Replaced(ls, ov);
      assert r[1..] == Replaced(ls[1..], ov);
      ReplacedSettings(ls[1..], ov, k);
      if k in ov.at { ConfLineKeyAgrees(ls[0], k); }
      if c.Some? && c.value in ov.at {
        OverrideLineShape(c.value, ov.at[c.value]);
        ConfLineKeyAgrees(ls[0], c.value);
      }
    }
  }

  lemma {:induction false} MissingSettings(ls: seq<string>, order: seq<string>, ov: Overrides, k: string)
    requires WellFormedOverrides(ov)
    requires forall x :: x in order ==> x in ov.at
    requires forall i, j :: 0 <= i < j < |order| ==> order[i] != order[j]
    ensures Setting(Missing(ls, order, ov.at), k) ==
            if k in order && LastLine(ls, k).None? then Some(Strip(FormatConfValue(ov.at[k]))) else None
  {
    if order != [] {
      var x := order[0];
      OverrideLineShape(x, ov.at[x]);
      MissingSettings(ls, order[1..], ov, k);
      SettingAppend(MissingPart(ls, x, ov.at), Missing(ls, order[1..], ov.at), k);
      assert k in order <==> k == x || k in order[1..];
    }
  }

  lemma ApplyLinesSettings(ls: seq<string>, ov: Overrides, k: string)
    requires WellFormedOverrides(ov)
    ensures Setting(ApplyLines(ls, ov), k) ==
            if k in ov.at then Some(Strip(FormatConfValue(ov.at[k]))) else Setting(ls, k)
  {
    ReplacedSettings(ls, ov, k);
    MissingSettings(ls, ov.order, ov, k);
    SettingAppend(Replaced(ls, ov), Missing(ls, ov.order, ov.at), k);
  }

  lemma {:induction false} ReplacedAreLines(ls: seq<string>, ov: Overrides)
    requires WellFormedOverrides(ov) && AllLines(ls)
    ensures AllLines(Replaced(ls, ov))
    ensures forall i :: 0 <= i < |ls| && EndsInNewline(ls[i]) ==> EndsInNewline(Replaced(ls, ov)[i])
  {
    if ls != [] {
      var c := ConfLineKey(ls[0]);
      if c.Some? && c.value in ov.at { OverrideLineShape(c.value, ov.at[c.value]); }
      ReplacedAreLines(ls[1..], ov);
    }
  }

  lemma {:induction false} MissingAreLines(ls: seq<string>, order: seq<string>, ov: Overrides)
    requires WellFormedOverrides(ov)
    ensures AllLines(Missing(ls, order, ov.at))
    ensures forall i :: 0 <= i < |Missing(ls, order, ov.at)| ==> EndsInNewline(Missing(ls, order, ov.at)[i])
  {
    if order != [] {
      var x := order[0];
      if x in ov.at { OverrideLineShape(x, ov.at[x]); }
      MissingAreLines(ls, order[1..], ov);
    }
  }

  lemma ApplyLinesAreLines(ls: seq<string>, ov: Overrides)
    requires WellFormedOverrides(ov) && AllLines(ls)
    ensures AllLines(ApplyLines(ls, ov))
  {
    ReplacedAreLines(ls, ov);
    MissingAreLines(ls, ov.order, ov);
  }

  // ---------- restore ----------

  /** A captured key keeps one line, the captured one, where its last line stands. */
  function KeptPart(line: string, later: seq<string>, snap: Snapshot): seq<string> {
    var k := ConfLineKey(line);
    if k.Some? && k.value in snap.at then
      if snap.at[k.value].None? || LastLine(later, k.value).Some? then [] else [snap.at[k.value].value]
    else [line]
  }

  function Kept(ls: seq<string>, snap: Snapshot): seq<string> {
    if ls == [] then [] else KeptPart(ls[0], ls[1..], snap) + Kept(ls[1..], snap)
  }

  /** The captured lines whose key no line assigns any more. */
  function VanishedPart(ls: seq<string>, k: string, at: map<string, Option<string>>): seq<string> {
    if k in at && at[k].Some? && LastLine(ls, k).None? then [at[k].value] else []
  }

  function Vanished(ls: seq<string>, order: seq<string>, at: map<string, Option<string>>): seq<string> {
    if order == [] then [] else VanishedPart(ls, order[0], at) + Vanished(ls, order[1..], at)
  }

  function RestoreLines(ls: seq<string>, snap: Snapshot): seq<string> {
    Kept(ls, snap) + Vanished(ls, snap.order, snap.at)
  }

  lemma KeptPartLastLine(line: string, later: seq<string>, snap: Snapshot, k: string)
    requires WellFormedSnapshot(snap)
    ensures LastLine(KeptPart(line, later, snap), k) ==
            if k in snap.at then (if Assigns(line, k) && LastLine(later, k).None? then snap.at[k] else None)
            else if Assigns(line, k) then Some(line) else None
  {
    var c := ConfLineKey(line);
    if k in snap.at { ConfLineKeyAgrees(line, k); }
    if c.Some? && c.value in snap.at {
      ConfLineKeyAgrees(line, c.value);
    }
  }

  /** A captured line goes back where the key's last line stands, and nowhere else. */
  lemma {:induction false} KeptStandsLast(a: seq<string>, line: string, b: seq<string>, snap: Snapshot, k: string)
    returns (earlier: seq<string>)
    requires WellFormedSnapshot(snap) && k in snap.at && snap.at[k].Some?
    requires Assigns(line, k) && LastLine(b, k).None?
    ensures Kept(a + [line] + b, snap) == earlier + [snap.at[k].value] + Kept(b, snap)
    ensures LastLine(earlier, k).None?
  {
    hide Kept, KeptPart, WellFormedSnapshot, LastLine, Assigns;
    if a == [] {
      earlier := [];
      KeptHere(line, b, snap, k);
      assert a + [line] + b == [line] + b;
      NoLastLine(k);
    } else {
      var rest := KeptStandsLast(a[1..], line, b, snap, k);
      var part := KeptBefore(a[0], a[1..], line, b, snap, k);
      earlier := part + rest;
      LastLineAppend(part, rest, k);
      assert (a + [line] + b) == [a[0]] + (a[1..] + [line] + b);
      assert part + (rest + [snap.at[k].value] + Kept(b, snap)) == earlier + [snap.at[k].value] + Kept(b, snap);
    }
  }

  lemma NoLastLine(k: string)
    ensures LastLine([], k).None?
  {}

  lemma KeptHere(line: string, b: seq<string>, snap: Snapshot, k: string)
    requires WellFormedSnapshot(snap) && k in snap.at && snap.at[k].Some?
    requires Assigns(line, k) && LastLine(b, k).None?
    ensures Kept([line] + b, snap) == [] + [snap.at[k].value] + Kept(b, snap)
  {
    hide WellFormedSnapshot, Assigns, LastLine, KeptPart;
    KeptPartHere(line, b, snap, k);
    KeptFirst(line, b, snap);
  }

  lemma KeptPartHere(line: string, b: seq<string>, snap: Snapshot, k: string)
    requires WellFormedSnapshot(snap) && k in snap.at && snap.at[k].Some?
    requires Assigns(line, k) && LastLine(b, k).None?
    ensures KeptPart(line, b, snap) == [snap.at[k].value]
  {
    hide Assignment, Assigns, ConfLineKey, IsLine, LastLine, WellFormedKey;
    ConfLineKeyAgrees(line, k);
  }

  lemma KeptFirst(line: string, b: seq<string>, snap: Snapshot)
    ensures Kept([line] + b, snap) == KeptPart(line, b, snap) + Kept(b, snap)
  {
    hide KeptPart;
    assert ([line] + b)[1..] == b;
  }

  lemma KeptBefore(first: string, a: seq<string>, line: string, b: seq<string>, snap: Snapshot, k: string)
    returns (part: seq<string>)
    requires WellFormedSnapshot(snap) && k in snap.at && Assigns(line, k)
    ensures Kept([first] + (a + [line] + b), snap) == part + Kept(a + [line] + b, snap)
    ensures LastLine(part, k).None?
  {
    var later := a + [line] + b;
    part := KeptPart(first, later, snap);
    assert later[|a|] == line;
    LastLineExists(later, k, |a|);
    KeptPartLastLine(first, later, snap, k);
    hide LastLine, KeptPart, Assignment;
    assert ([first] + later)[1..] == later;
  }

  lemma {:induction false} KeptLastLine(ls: seq<string>, snap: Snapshot, k: string)
    requires WellFormedSnapshot(snap)
    ensures LastLine(Kept(ls, snap), k) ==
            if k in snap.at then (if LastLine(ls, k).Some? then snap.at[k] else None) else LastLine(ls, k)
  {
    if ls != [] {
      KeptLastLine(ls[1..], snap, k);
      KeptPartLastLine(ls[0], ls[1..], snap, k);
      LastLineAppend(KeptPart(ls[0], ls[1..], snap), Kept(ls[1..], snap), k);
    }
  }

  lemma {:induction false} VanishedLastLine(ls: seq<string>, order: seq<string>, snap: Snapshot, k: string)
    requires WellFormedSnapshot(snap)
    requires forall i, j :: 0 <= i < j < |order| ==> order[i] != order[j]
    ensures LastLine(Vanished(ls, order, snap.at), k) ==
            if k in order && k in snap.at && LastLine(ls, k).None? then snap.at[k] else None
  {
    if order != [] {
      var x := order[0];
      VanishedLastLine(ls, order[1..], snap, k);
      LastLineAppend(VanishedPart(ls, x, snap.at), Vanished(ls, order[1..], snap.at), k);
      assert k in order <==> k == x || k in order[1..];
    }
  }

  lemma RestoreLinesLastLine(ls: seq<string>, snap: Snapshot, k: string)
    requires WellFormedSnapshot(snap)
    ensures LastLine(RestoreLines(ls, snap), k) == if k in snap.at then snap.at[k] else LastLine(ls, k)
  {
    KeptLastLine(ls, snap, k);
    VanishedLastLine(ls, snap.order, snap, k);
    LastLineAppend(Kept(ls, snap), Vanished(ls, snap.order, snap.at), k);
  }

  lemma {:induction false} KeptAreLines(ls: seq<string>, snap: Snapshot)
    requires WellFormedSnapshot(snap) && AllLines(ls)
    ensures AllLines(Kept(ls, snap))
  {
    if ls != [] { KeptAreLines(ls[1..], snap); }
  }

  lemma {:induction false} VanishedAreLines(ls: seq<string>, order: seq<string>, snap: Snapshot)
    requires WellFormedSnapshot(snap)
    ensures AllLines(Vanished(ls, order, snap.at))
  {
    if order != [] { VanishedAreLines(ls, order[1..], snap); }
  }

  lemma RestoreLinesAreLines(ls: seq<string>, snap: Snapshot)
    requires WellFormedSnapshot(snap) && AllLines(ls)
    ensures AllLines(RestoreLines(ls, snap))
  {
    KeptAreLines(ls, snap);
    VanishedAreLines(ls, snap.order, snap);
  }

  // ---------- whole texts ----------

  function ApplyText(t: string, ov: Overrides): string {
    JoinConfLines(ApplyLines(SplitLines(t), ov))
  }

  function CaptureText(t: string, keys: seq<string>): Snapshot {
    CaptureLines(SplitLines(t), keys)
  }

  function RestoreText(t: string, snap: Snapshot): string {
    if snap.order == [] then t else JoinConfLines(RestoreLines(SplitLines(t), snap))
  }

  lemma ApplyTextWrites(t: string, ov: Overrides, k: string)
    requires WellFormedOverrides(ov)
    ensures TextSetting(ApplyText(t, ov), k) ==
            if k in ov.at then Some(Strip(FormatConfValue(ov.at[k]))) else TextSetting(t, k)
  {
    var ls := SplitLines(t);
    SplitLinesShape(t);
    ApplyLinesAreLines(ls, ov);
    SplitJoined(ApplyLines(ls, ov));
    ResplitKeepsSettings(ApplyLines(ls, ov), k);
    ApplyLinesSettings(ls, ov, k);
  }

  /**
   Whatever the file said, after apply the loader reads each override as the value it is:
   Booleans, strings and integers exactly, floats exactly when they print with a point. A
   float without one and None come out as strings, and any other object as its text parses.
   Everything else reads as before.
   */
  lemma ApplyTextSettings(t: string, ov: Overrides, k: string)
    requires WellFormedOverrides(ov)
    ensures k !in ov.at ==> TextSetting(ApplyText(t, ov), k) == TextSetting(t, k)
    ensures k in ov.at ==>
              && TypedSetting(ApplyText(t, ov), k) == Some(ReadAs(ov.at[k]))
              && match ov.at[k]
                 case Flag(b) => TypedSetting(ApplyText(t, ov), k) == Some(Bool(b))
                 case Quoted(s) => TypedSetting(ApplyText(t, ov), k) == Some(Str(s))
                 case Number(n) => TypedSetting(ApplyText(t, ov), k) == Some(Int(n))
                 case Real(f) =>
                   TypedSetting(ApplyText(t, ov), k) ==
                   Some(if f.Finite? && f.fraction.Some? then Decimal(FloatText(f)) else Str(FloatText(f)))
                 case Nothing => TypedSetting(ApplyText(t, ov), k) == Some(Str("None"))
                 case Other(repr) => TypedSetting(ApplyText(t, ov), k) == Some(ParseValue(Strip(repr)))
  {
    hide ApplyText, TextSetting, FormatConfValue, ParseValue, Strip, FloatText;
    ApplyTextWrites(t, ov, k);
    if k in ov.at { FormattedReads(ov.at[k]); }
  }

  lemma RestoreTextSettings(t: string, snap: Snapshot, k: string)
    requires WellFormedSnapshot(snap)
    ensures TextSetting(RestoreText(t, snap), k) ==
            if k in snap.at then ValueOf(snap.at[k]) else TextSetting(t, k)
  {
    if snap.order != [] {
      var ls := SplitLines(t);
      SplitLinesShape(t);
      RestoreLinesAreLines(ls, snap);
      SplitJoined(RestoreLines(ls, snap));
      ResplitKeepsSettings(RestoreLines(ls, snap), k);
      RestoreLinesLastLine(ls, snap, k);
    }
  }

  lemma CaptureTextSettings(t: string, ov: Overrides)
    requires WellFormedOverrides(ov)
    ensures WellFormedSnapshot(CaptureText(t, ov.order))
    ensures CaptureText(t, ov.order).at.Keys == ov.at.Keys
    ensures forall k :: k in ov.at ==> ValueOf(CaptureText(t, ov.order).at[k]) == TextSetting(t, k)
  {
    SplitLinesShape(t);
    CaptureIsWellFormed(SplitLines(t), ov);
  }

  /** Capture, apply, restore: the loader reads the file exactly as before. */
  lemma RoundTripKeepsMeaning(t: string, ov: Overrides, k: string)
    requires WellFormedOverrides(ov)
    ensures TextSetting(RestoreText(ApplyText(t, ov), CaptureText(t, ov.order)), k) == TextSetting(t, k)
  {
    CaptureTextSettings(t, ov);
    RestoreTextSettings(ApplyText(t, ov), CaptureText(t, ov.order), k);
    ApplyTextSettings(t, ov, k);
  }

  // ---------- byte-identical round trip ----------

  ghost predicate AssignedOnce(ls: seq<string>, ov: Overrides) {
    forall i, j, k :: 0 <= i < j < |ls| && k in ov.at && Assigns(ls[i], k) ==> !Assigns(ls[j], k)
  }

  /** Every line but the last ends in a newline; so does the last, unless nothing is appended after it. */
  ghost predicate NewlineTerminated(ls: seq<string>, ov: Overrides) {
    && (forall i :: 0 <= i < |ls| - 1 ==> EndsInNewline(ls[i]))
    && (ls == [] || EndsInNewline(ls[|ls| - 1]) || Missing(ls, ov.order, ov.at) == [])
  }

  /** A captured key's only line is put back; a line of an uncaptured key stays. */
  lemma KeptHead(line: string, rest: seq<string>, ov: Overrides, snap: Snapshot)
    requires WellFormedOverrides(ov) && snap.at.Keys == ov.at.Keys
    requires forall k :: k in ov.at && Assigns(line, k) ==> snap.at[k] == Some(line) && LastLine(rest, k).None?
    ensures Kept([ReplaceLine(line, ov)] + rest, snap) == [line] + Kept(rest, snap)
  {
    var all := [ReplaceLine(line, ov)] + rest;
    assert all[1..] == rest;
    var c := ConfLineKey(line);
    if c.Some? && c.value in ov.at {
      ConfLineKeyAgrees(line, c.value);
      OverrideLineShape(c.value, ov.at[c.value]);
      ConfLineKeyAgrees(all[0], c.value);
    } else {
      assert all[0] == line;
    }
  }

  /** Every overridden key is assigned by at most one line, the line the snapshot holds. */
  ghost predicate Captured(ls: seq<string>, ov: Overrides, snap: Snapshot, missing: seq<string>) {
    && snap.at.Keys == ov.at.Keys
    && AssignedOnce(ls, ov)
    && forall i, k :: 0 <= i < |ls| && k in ov.at && Assigns(ls[i], k) ==>
         snap.at[k] == Some(ls[i]) && LastLine(missing, k).None?
  }

  lemma CapturedTail(ls: seq<string>, ov: Overrides, snap: Snapshot, missing: seq<string>)
    requires ls != [] && Captured(ls, ov, snap, missing)
    ensures Captured(ls[1..], ov, snap, missing)
  {
    hide Assigns, LastLine;
    var tail := ls[1..];
    forall i, j, k | 0 <= i < j < |tail| && k in ov.at && Assigns(tail[i], k) ensures !Assigns(tail[j], k) {
      assert tail[i] == ls[i + 1] && tail[j] == ls[j + 1];
    }
    forall i, k | 0 <= i < |tail| && k in ov.at && Assigns(tail[i], k)
      ensures snap.at[k] == Some(tail[i]) && LastLine(missing, k).None?
    {
      assert tail[i] == ls[i + 1];
    }
  }

  lemma NothingLater(ls: seq<string>, ov: Overrides, k: string)
    requires ls != [] && AssignedOnce(ls, ov) && k in ov.at && Assigns(ls[0], k)
    ensures LastLine(ls[1..], k).None?
  {
    hide Assigns;
  }

  lemma ReplacedAssignsNothingNew(ls: seq<string>, ov: Overrides, k: string)
    requires WellFormedOverrides(ov) && k in ov.at && LastLine(ls, k).None?
    ensures LastLine(Replaced(ls, ov), k).None?
  {
    ReplacedSettings(ls, ov, k);
  }

  lemma CapturedHead(ls: seq<string>, ov: Overrides, snap: Snapshot, missing: seq<string>, k: string)
    requires WellFormedOverrides(ov) && ls != [] && Captured(ls, ov, snap, missing)
    requires k in ov.at && Assigns(ls[0], k)
    ensures snap.at[k] == Some(ls[0]) && LastLine(Replaced(ls[1..], ov) + missing, k).None?
  {
    hide Assigns, LastLine, Replaced, WellFormedKey, FormatConfValue;
    NothingLater(ls, ov, k);
    ReplacedAssignsNothingNew(ls[1..], ov, k);
    LastLineAppend(Replaced(ls[1..], ov), missing, k);
  }

  lemma ReplacedCons(ls: seq<string>, ov: Overrides, missing: seq<string>)
    requires ls != []
    ensures Replaced(ls, ov) + missing == [ReplaceLine(ls[0], ov)] + (Replaced(ls[1..], ov) + missing)
  {}

  lemma {:induction false} KeptUndoesReplaced(ls: seq<string>, ov: Overrides, snap: Snapshot, missing: seq<string>)
    requires WellFormedOverrides(ov) && Captured(ls, ov, snap, missing) && Kept(missing, snap) == []
    ensures Kept(Replaced(ls, ov) + missing, snap) == ls
  {
    if ls == [] {
      assert Replaced(ls, ov) + missing == missing;
    } else {
      var rest := Replaced(ls[1..], ov) + missing;
      assert Kept(rest, snap) == ls[1..] by {
        CapturedTail(ls, ov, snap, missing);
        KeptUndoesReplaced(ls[1..], ov, snap, missing);
      }
      assert Kept([ReplaceLine(ls[0], ov)] + rest, snap) == [ls[0]] + Kept(rest, snap) by {
        forall k | k in ov.at && Assigns(ls[0], k) ensures snap.at[k] == Some(ls[0]) && LastLine(rest, k).None? {
          CapturedHead(ls, ov, snap, missing, k);
        }
        KeptHead(ls[0], rest, ov, snap);
      }
      assert Replaced(ls, ov) + missing == [ReplaceLine(ls[0], ov)] + rest by {
        hide *;
        ReplacedCons(ls, ov, missing);
      }
    }
  }

  lemma {:induction false} KeptDropsMissing(ls: seq<string>, order: seq<string>, ov: Overrides, snap: Snapshot)
    requires WellFormedOverrides(ov) && snap.at.Keys == ov.at.Keys
    requires forall k :: k in ov.at ==> snap.at[k] == LastLine(ls, k)
    ensures Kept(Missing(ls, order, ov.at), snap) == []
  {
    if order != [] {
      KeptDropsMissing(ls, order[1..], ov, snap);
      var x, rest := order[0], Missing(ls, order[1..], ov.at);
      if x in ov.at && LastLine(ls, x).None? {
        var line := OverrideLine(x, ov.at[x]);
        OverrideLineShape(x, ov.at[x]);
        ConfLineKeyAgrees(line, x);
        assert ([line] + rest)[1..] == rest;
        assert Kept([line] + rest, snap) == Kept(rest, snap);
      } else {
        assert Missing(ls, order, ov.at) == rest;
      }
    }
  }

  lemma {:induction false} NothingVanished(ls: seq<string>, order: seq<string>, at: map<string, Option<string>>)
    requires forall k :: k in at && at[k].Some? ==> LastLine(ls, k).Some?
    ensures Vanished(ls, order, at) == []
  {
    if order != [] { NothingVanished(ls, order[1..], at); }
  }

  lemma {:induction false} OnlyLine(ls: seq<string>, ov: Overrides, i: nat, k: string)
    requires AssignedOnce(ls, ov) && k in ov.at && i < |ls| && Assigns(ls[i], k)
    ensures LastLine(ls, k) == Some(ls[i])
  {
    LastLineExists(ls, k, i);
    var last := LastLine(ls, k).value;
    var j :| 0 <= j < |ls| && ls[j] == last;
    if i < j || j < i {
      assert false;
    }
  }

  lemma AssignedNotMissing(ls: seq<string>, ov: Overrides, k: string)
    requires WellFormedOverrides(ov) && LastLine(ls, k).Some?
    ensures LastLine(Missing(ls, ov.order, ov.at), k).None?
  {
    MissingSettings(ls, ov.order, ov, k);
  }

  lemma CaptureCaptures(ls: seq<string>, ov: Overrides)
    requires WellFormedOverrides(ov) && AssignedOnce(ls, ov)
    ensures Captured(ls, ov, CaptureLines(ls, ov.order), Missing(ls, ov.order, ov.at))
  {
    hide Assigns, LastLine, Missing, WellFormedKey, FormatConfValue;
    var snap := CaptureLines(ls, ov.order);
    forall i, k | 0 <= i < |ls| && k in ov.at && Assigns(ls[i], k)
      ensures snap.at[k] == Some(ls[i]) && LastLine(Missing(ls, ov.order, ov.at), k).None?
    {
      OnlyLine(ls, ov, i, k);
      AssignedNotMissing(ls, ov, k);
    }
  }

  lemma RestoreUndoesApplyLines(ls: seq<string>, ov: Overrides)
    requires WellFormedOverrides(ov) && AllLines(ls) && AssignedOnce(ls, ov)
    ensures RestoreLines(ApplyLines(ls, ov), CaptureLines(ls, ov.order)) == ls
  {
    var snap := CaptureLines(ls, ov.order);
    KeptDropsMissing(ls, ov.order, ov, snap);
    CaptureCaptures(ls, ov);
    KeptUndoesReplaced(ls, ov, snap, Missing(ls, ov.order, ov.at));
    forall k | k in snap.at ensures LastLine(ApplyLines(ls, ov), k).Some? {
      ApplyLinesSettings(ls, ov, k);
    }
    NothingVanished(ApplyLines(ls, ov), ov.order, snap.at);
  }

  lemma AppliedTextSplits(ls: seq<string>, ov: Overrides)
    requires WellFormedOverrides(ov) && AllLines(ls) && NewlineTerminated(ls, ov)
    ensures SplitLines(JoinConfLines(ApplyLines(ls, ov))) == ApplyLines(ls, ov)
  {
    hide IsLine, EndsInNewline, Replaced, Missing, WellFormedOverrides, SplitLines, Resplit, JoinConfLines;
    var applied := ApplyLines(ls, ov);
    ApplyLinesAreLines(ls, ov);
    ReplacedAreLines(ls, ov);
    MissingAreLines(ls, ov.order, ov);
    forall i | 0 <= i < |applied| - 1 ensures EndsInNewline(applied[i]) {
      if i >= |ls| { assert applied[i] == Missing(ls, ov.order, ov.at)[i - |ls|]; }
    }
    SplitJoined(applied);
    ResplitIdentity(applied);
  }

  /** Capture, apply, restore gives the same bytes back. */
  lemma RoundTripKeepsBytes(t: string, ov: Overrides)
    requires WellFormedOverrides(ov)
    requires AssignedOnce(SplitLines(t), ov) && NewlineTerminated(SplitLines(t), ov)
    ensures RestoreText(ApplyText(t, ov), CaptureText(t, ov.order)) == t
  {
    var ls := SplitLines(t);
    SplitLinesShape(t);
    AppliedTextSplits(ls, ov);
    RestoreUndoesApplyLines(ls, ov);
    ResplitIdentity(ls);
    ResplitShape(ls);
    if ov.order == [] {
      ReplacedNothing(ls, ov);
      assert ApplyLines(ls, ov) == ls;
    }
  }

  lemma {:induction false} ReplacedNothing(ls: seq<string>, ov: Overrides)
    requires ov.Valid() && ov.order == []
    ensures Replaced(ls, ov) == ls
  {
    if ls != [] {
      ReplacedNothing(ls[1..], ov);
      assert ls == [ls[0]] + ls[1..];
    }
  }

  // ---------- the helpers' own loops ----------

  /** One step of joining: all but the last part get their newline. */
  lemma JoinStep(out: seq<string>, parts: seq<string>, i: nat)
    requires i < |parts|
    ensures Concat(out + [parts[i]]) == Concat(out) + parts[i]
    ensures i < |parts| - 1 ==>
              Concat(out + [WithNewline(parts[i])]) + JoinConfLines(parts[i + 1..])
                  == Concat(out) + JoinConfLines(parts[i..])
    ensures i == |parts| - 1 ==> JoinConfLines(parts[i..]) == parts[i]
  {
    ConcatOne(out, parts[i]);
    ConcatOne(out, WithNewline(parts[i]));
    assert parts[i..][1..] == parts[i + 1..];
  }

  lemma ConcatOne(out: seq<string>, p: string)
    ensures Concat(out + [p]) == Concat(out) + p
  {
    ConcatAppend(out, [p]);
    assert [p][1..] == [];
  }

  /** `_join_conf_lines` */
  method JoinParts(parts: seq<string>) returns (text: string)
    ensures text == JoinConfLines(parts)
  {
    hide JoinConfLines;
    var out: seq<string> := [];
    assert JoinConfLines([]) == "" by { JoinNothing(); }
    assert parts[0..] == parts;
    for index := 0 to |parts|
      invariant index < |parts| ==> Concat(out) + JoinConfLines(parts[index..]) == JoinConfLines(parts)
      invariant index == |parts| ==> Concat(out) == JoinConfLines(parts)
    {
      var part := parts[index];
      JoinStep(out, parts, index);
      if index < |parts| - 1 && part != "" && !EndsInNewline(part) {
        part := part + "\n";
      }
      out := out + [part];
    }
    text := Concat(out);
  }

  lemma JoinNothing()
    ensures JoinConfLines([]) == ""
  {}

  /** First loop of `_apply_conf_overrides`: rewrite the lines of overridden keys. */
  method ReplaceLines(lines: seq<string>, ov: Overrides) returns (result: seq<string>, applied: set<string>)
    requires WellFormedOverrides(ov)
    ensures result == Replaced(lines, ov)
    ensures forall k :: k in applied <==> k in ov.at && LastLine(lines, k).Some?
  {
    hide Assignment, ConfLineKey, WellFormedKey, FormatConfValue, OverrideLine;
    applied := {};
    result := [];
    for i := 0 to |lines|
      invariant result + Replaced(lines[i..], ov) == Replaced(lines, ov)
      invariant forall k :: k in applied <==> k in ov.at && LastLine(lines[..i], k).Some?
    {
      var line := lines[i];
      var key := ConfLineKey(line);
      assert lines[i..][1..] == lines[i + 1..];
      assert Replaced(lines[i..], ov) == [ReplaceLine(line, ov)] + Replaced(lines[i + 1..], ov);
      forall k | k in ov.at
        ensures LastLine(lines[..i + 1], k).Some? <==> LastLine(lines[..i], k).Some? || key == Some(k)
      {
        assert lines[..i + 1] == lines[..i] + [line];
        LastLineAppend(lines[..i], [line], k);
        ConfLineKeyAgrees(line, k);
      }
      result := result + [ReplaceLine(line, ov)];
      if key.Some? && key.value in ov.at {
        applied := applied + {key.value};
      }
    }
    assert lines[..|lines|] == lines;
  }

  lemma MissingStep(result: seq<string>, ls: seq<string>, order: seq<string>, i: nat, at: map<string, Value>)
    requires i < |order|
    ensures result + Missing(ls, order[i..], at)
              == (result + MissingPart(ls, order[i], at)) + Missing(ls, order[i + 1..], at)
  {
    assert order[i..][1..] == order[i + 1..];
  }

  /** `_apply_conf_overrides` */
  method ApplyConfOverrides(original: string, ov: Overrides) returns (text: string)
    requires WellFormedOverrides(ov)
    ensures text == ApplyText(original, ov)
  {
    hide Assignment, ConfLineKey, WellFormedKey, FormatConfValue, OverrideLine, LastLine, SplitLines, Replaced, Missing;
    var lines := SplitLines(original);
    var result, applied := ReplaceLines(lines, ov);
    assert ov.order[0..] == ov.order;
    for i := 0 to |ov.order|
      invariant result + Missing(lines, ov.order[i..], ov.at) == ApplyLines(lines, ov)
    {
      var key := ov.order[i];
      MissingStep(result, lines, ov.order, i, ov.at);
      if key !in applied {
        result := result + [OverrideLine(key, ov.at[key])];
      } else {
        assert result + [] == result;
      }
    }
    NothingMissing(lines, ov);
    assert result + [] == result;
    text := JoinParts(result);
  }

  lemma NothingMissing(lines: seq<string>, ov: Overrides)
    ensures Missing(lines, ov.order[|ov.order|..], ov.at) == []
  {}

  /** `_capture_conf_lines` */
  method CaptureConfLines(text: string, ov: Overrides) returns (snap: Snapshot)
    requires WellFormedOverrides(ov)
    ensures snap == CaptureText(text, ov.order)
  {
    hide Assignment, ConfLineKey, WellFormedKey, FormatConfValue, SplitLines;
    var lines := SplitLines(text);
    var at: map<string, Option<string>> := map k | k in ov.order :: None;
    for i := 0 to |lines|
      invariant at.Keys == ov.at.Keys
      invariant forall k :: k in ov.at ==> at[k] == LastLine(lines[..i], k)
    {
      var line := lines[i];
      var key := ConfLineKey(line);
      assert lines[..i + 1] == lines[..i] + [line];
      forall k | k in ov.at
        ensures LastLine(lines[..i + 1], k) == if key == Some(k) then Some(line) else LastLine(lines[..i], k)
      {
        LastLineAppend(lines[..i], [line], k);
        ConfLineKeyAgrees(line, k);
      }
      if key.Some? && key.value in at {
        at := at[key.value := Some(line)];
      }
    }
    assert lines[..|lines|] == lines;
    snap := Dict(ov.order, at);
  }

  /** `last` holds the index of each captured key's last line. */
  ghost predicate LastIndexed(lines: seq<string>, snap: Snapshot, last: map<string, nat>) {
    && (forall k :: k in last ==> k in snap.at && last[k] < |lines| && Assigns(lines[last[k]], k))
    && (forall j, k :: 0 <= j < |lines| && k in snap.at && Assigns(lines[j], k) ==> k in last && j <= last[k])
  }

  /** First loop of `_restore_conf_overrides`: the index of each captured key's last line. */
  method LastIndexes(lines: seq<string>, snap: Snapshot) returns (last: map<string, nat>)
    requires WellFormedSnapshot(snap)
    ensures LastIndexed(lines, snap, last)
  {
    hide Assignment, ConfLineKey, WellFormedKey;
    last := map[];
    for i := 0 to |lines|
      invariant forall k :: k in last ==> k in snap.at && last[k] < i && Assigns(lines[last[k]], k)
      invariant forall j, k :: 0 <= j < i && k in snap.at && Assigns(lines[j], k) ==> k in last && j <= last[k]
    {
      var key := ConfLineKey(lines[i]);
      forall k | k in snap.at ensures key == Some(k) <==> Assigns(lines[i], k) {
        ConfLineKeyAgrees(lines[i], k);
      }
      if key.Some? && key.value in snap.at {
        last := last[key.value := i];
      }
    }
  }

  /** The last index of a key is the line after which no line assigns it. */
  lemma LastIndexIsLast(lines: seq<string>, k: string, last: nat, i: nat)
    requires i < |lines| && i <= last < |lines| && Assigns(lines[last], k)
    requires forall j :: 0 <= j < |lines| && Assigns(lines[j], k) ==> j <= last
    ensures LastLine(lines[i + 1..], k).Some? <==> i != last
  {
    var rest := lines[i + 1..];
    if i != last {
      assert rest[last - i - 1] == lines[last];
      LastLineExists(rest, k, last - i - 1);
    }
  }

  lemma SomeLineAssigns(lines: seq<string>, k: string)
    requires LastLine(lines, k).Some?
    ensures exists j :: 0 <= j < |lines| && Assigns(lines[j], k)
  {
    var j :| 0 <= j < |lines| && lines[j] == LastLine(lines, k).value;
    assert Assigns(lines[j], k);
  }

  lemma KeptStep(parts: seq<string>, lines: seq<string>, i: nat, snap: Snapshot)
    requires i < |lines|
    ensures parts + Kept(lines[i..], snap)
              == (parts + KeptPart(lines[i], lines[i + 1..], snap)) + Kept(lines[i + 1..], snap)
  {
    assert lines[i..][1..] == lines[i + 1..];
  }

  lemma VanishedStep(
    parts: seq<string>,
    lines: seq<string>,
    order: seq<string>,
    i: nat,
    at: map<string, Option<string>>)
    requires i < |order|
    ensures parts + Vanished(lines, order[i..], at)
              == (parts + VanishedPart(lines, order[i], at)) + Vanished(lines, order[i + 1..], at)
  {
    assert order[i..][1..] == order[i + 1..];
  }

  /** What the second loop finds on one line, said with the last indexes. */
  lemma KeptPartSaid(lines: seq<string>, snap: Snapshot, last: map<string, nat>, i: nat)
    requires WellFormedSnapshot(snap) && LastIndexed(lines, snap, last) && i < |lines|
    ensures var key := ConfLineKey(lines[i]);
            && (key.Some? && key.value in snap.at ==> key.value in last)
            && (forall k :: k in last && last[k] == i ==> key == Some(k))
            && KeptPart(lines[i], lines[i + 1..], snap) ==
               if key.None? || key.value !in snap.at then [lines[i]]
               else if snap.at[key.value].Some? && i == last[key.value] then [snap.at[key.value].value]
               else []
  {
    hide Assignment, ConfLineKey, WellFormedKey, IsLine, LastLine;
    var key := ConfLineKey(lines[i]);
    forall k | k in snap.at ensures key == Some(k) <==> Assigns(lines[i], k) {
      ConfLineKeyAgrees(lines[i], k);
    }
    if key.Some? && key.value in snap.at {
      LastIndexIsLast(lines, key.value, last[key.value], i);
    }
  }

  /** Second loop: captured lines go back where the key's last line stands. */
  method KeepLines(lines: seq<string>, snap: Snapshot, last: map<string, nat>)
    returns (parts: seq<string>, restored: set<string>)
    requires WellFormedSnapshot(snap) && LastIndexed(lines, snap, last)
    ensures parts == Kept(lines, snap)
    ensures forall k :: k in restored <==> k in last && snap.at[k].Some?
  {
    hide Assignment, ConfLineKey, Kept, KeptPart, WellFormedSnapshot;
    parts, restored := [], {};
    assert forall k :: k in last ==> k in snap.at && last[k] < |lines|;
    assert lines[0..] == lines;
    for i := 0 to |lines|
      invariant parts + Kept(lines[i..], snap) == Kept(lines, snap)
      invariant forall k :: k in restored <==> k in last && last[k] < i && snap.at[k].Some?
    {
      var line := lines[i];
      var key := ConfLineKey(line);
      KeptStep(parts, lines, i, snap);
      KeptPartSaid(lines, snap, last, i);
      hide LastIndexed;
      if key.Some? && key.value in snap.at {
        if snap.at[key.value].Some? && i == last[key.value] {
          parts := parts + [snap.at[key.value].value];
          restored := restored + {key.value};
        } else {
          assert parts + [] == parts;
        }
      } else {
        parts := parts + [line];
      }
    }
    NothingKept(lines, snap);
  }

  lemma NothingKept(lines: seq<string>, snap: Snapshot)
    ensures Kept(lines[|lines|..], snap) == []
  {}

  /** A captured key has a last index exactly when some line assigns it. */
  lemma IndexedExactlyWhenAssigned(lines: seq<string>, snap: Snapshot, last: map<string, nat>, k: string)
    requires LastIndexed(lines, snap, last) && k in snap.at
    ensures k in last <==> LastLine(lines, k).Some?
  {
    hide Assignment;
    if k in last { LastLineExists(lines, k, last[k]); }
    if LastLine(lines, k).Some? { SomeLineAssigns(lines, k); }
  }

  /** `_restore_conf_overrides` */
  method RestoreConfOverrides(current: string, snap: Snapshot) returns (text: string)
    requires WellFormedSnapshot(snap)
    ensures text == RestoreText(current, snap)
  {
    hide Assignment, ConfLineKey, WellFormedKey, IsLine, LastLine, SplitLines, Kept, Vanished, LastIndexed;
    if snap.order == [] {
      return current;
    }
    var lines := SplitLines(current);
    var last := LastIndexes(lines, snap);
    var parts, restored := KeepLines(lines, snap, last);
    assert snap.order[0..] == snap.order;
    for i := 0 to |snap.order|
      invariant parts + Vanished(lines, snap.order[i..], snap.at) == RestoreLines(lines, snap)
    {
      var key := snap.order[i];
      VanishedStep(parts, lines, snap.order, i, snap.at);
      IndexedExactlyWhenAssigned(lines, snap, last, key);
      if snap.at[key].Some? && key !in restored {
        parts := parts + [snap.at[key].value];
      } else {
        assert parts + [] == parts;
      }
    }
    NoKeysLeft(lines, snap);
    assert parts + [] == parts;
    text := JoinParts(parts);
  }

  lemma NoKeysLeft(lines: seq<string>, snap: Snapshot)
    ensures Vanished(lines, snap.order[|snap.order|..], snap.at) == []
  {}
}
