/**
 Greedy packing of a sequence into consecutive pieces: the shards of the site catalog
 (scripts/build_django_mojo_site.py) and the lines of a folded YAML block
 (scripts/sync_maestro_skills.py).

 Both programs join a piece's items with a one-character separator and bound the
 joined size, except that a lone item may be as large as it likes.
 */
module Packing {
  import opened Text

  type Piece = seq<string>

  function Flat(pieces: seq<Piece>): seq<string> {
    if pieces == [] then [] else pieces[0] + Flat(pieces[1..])
  }

  predicate Fits(sep: string, limit: int, piece: Piece) {
    piece != [] && (|piece| == 1 || |Join(sep, piece)| <= limit)
  }

  /** The pieces hold exactly the items, in order, none empty and none over the limit. */
  predicate IsPacking(sep: string, limit: int, items: seq<string>, pieces: seq<Piece>) {
    Flat(pieces) == items && forall i :: 0 <= i < |pieces| ==> Fits(sep, limit, pieces[i])
  }

  /** The piece has no room for the first item of the next. */
  predicate IsFull(sep: string, limit: int, piece: Piece, next: Piece) {
    next != [] && |Join(sep, piece + [next[0]])| > limit
  }

  /** No piece has room for the item that follows it. */
  predicate IsMaximal(sep: string, limit: int, pieces: seq<Piece>) {
    forall i, j :: 0 <= i < |pieces| && j == i + 1 && j < |pieces| ==> IsFull(sep, limit, pieces[i], pieces[j])
  }

  // ---------- sizes ----------

  lemma {:induction false} JoinAppend(sep: string, a: Piece, b: Piece)
    requires a != [] && b != []
    ensures Join(sep, a + b) == Join(sep, a) + sep + Join(sep, b)
  {
    assert (a + b)[1..] == a[1..] + b;
    if |a| == 1 {
      assert a[1..] + b == b;
    } else {
      JoinAppend(sep, a[1..], b);
    }
  }

  /** A stretch of a piece is no larger than the piece. */
  lemma StretchIsSmaller(sep: string, a: Piece, b: Piece, c: Piece)
    requires b != []
    ensures |Join(sep, b)| <= |Join(sep, a + b + c)|
  {
    if c == [] { assert a + b + c == a + b; } else { JoinAppend(sep, a + b, c); }
    if a == [] { assert a + b == b; } else { JoinAppend(sep, a, b); }
  }

  lemma {:induction false} FlatSnoc(ps: seq<Piece>, p: Piece)
    ensures Flat(ps + [p]) == Flat(ps) + p
  {
    if ps == [] {
      assert Flat([p]) == p + Flat([]) && ps + [p] == [p];
    } else {
      assert (ps + [p])[1..] == ps[1..] + [p];
      FlatSnoc(ps[1..], p);
    }
  }

  // ---------- the greedy packing ----------

  /** What the loops do with one more item. */
  function Place(sep: string, limit: int, pieces: seq<Piece>, item: string): seq<Piece> {
    if pieces != [] && |Join(sep, pieces[|pieces| - 1] + [item])| <= limit
    then pieces[..|pieces| - 1] + [pieces[|pieces| - 1] + [item]]
    else pieces + [[item]]
  }

  function Pack(sep: string, limit: int, items: seq<string>): seq<Piece> {
    if items == [] then []
    else Place(sep, limit, Pack(sep, limit, items[..|items| - 1]), items[|items| - 1])
  }

  lemma PlaceKeepsPacking(sep: string, limit: int, items: seq<string>, pieces: seq<Piece>, item: string)
    requires IsPacking(sep, limit, items, pieces) && IsMaximal(sep, limit, pieces)
    ensures IsPacking(sep, limit, items + [item], Place(sep, limit, pieces, item))
    ensures IsMaximal(sep, limit, Place(sep, limit, pieces, item))
  {
    hide Join, Flat;
    var next := Place(sep, limit, pieces, item);
    if |next| == |pieces| {
      var n := |pieces| - 1;
      var front, last := pieces[..n], pieces[n];
      FlatSnoc(front, last);
      FlatSnoc(front, last + [item]);
      assert pieces == front + [last];
      assert Flat(next) == items + [item];
      forall i, j | 0 <= i < |next| && j == i + 1 && j < |next| ensures IsFull(sep, limit, next[i], next[j]) {
        assert IsFull(sep, limit, pieces[i], pieces[j]);
        assert Fits(sep, limit, pieces[j]);
        assert next[i] == pieces[i] && next[j][0] == pieces[j][0];
      }
    } else {
      FlatSnoc(pieces, [item]);
    }
  }

  lemma {:induction false} PackIsGreedy(sep: string, limit: int, items: seq<string>)
    ensures IsPacking(sep, limit, items, Pack(sep, limit, items))
    ensures IsMaximal(sep, limit, Pack(sep, limit, items))
  {
    if items != [] {
      var before := items[..|items| - 1];
      PackIsGreedy(sep, limit, before);
      PlaceKeepsPacking(sep, limit, before, Pack(sep, limit, before), items[|items| - 1]);
      assert before + [items[|items| - 1]] == items;
    }
  }

  predicate IsSuffix(g: seq<string>, o: seq<string>) {
    |g| <= |o| && g == o[|o| - |g|..]
  }

  /**
   Where two concatenations end together, either the rests do too or the second's head covers the
   first's and one item more.
   */
  lemma HeadsAndRests(g0: Piece, gs: Piece, o0: Piece, os: Piece)
    requires IsSuffix(g0 + gs, o0 + os)
    ensures |gs| <= |os| ==> IsSuffix(gs, os)
    ensures |gs| > |os| ==>
              exists skipped :: 0 <= skipped && skipped + |g0| + 1 <= |o0| &&
                                o0 == o0[..skipped] + (g0 + [gs[0]]) + o0[skipped + |g0| + 1..]
  {
    var g, o := g0 + gs, o0 + os;
    var skipped := |o| - |g|;
    if |gs| > |os| {
      var over := g0 + [gs[0]];
      forall i | 0 <= i < |over| ensures o0[skipped + i] == over[i] {
        assert o[skipped..][i] == g[i];
      }
      assert o0 == o0[..skipped] + over + o0[skipped + |g0| + 1..];
    } else {
      forall i | 0 <= i < |gs| ensures gs[i] == os[|os| - |gs|..][i] {
        assert g[|g0| + i] == o[skipped..][|g0| + i];
      }
    }
  }

  /**
   A first piece that starts no later than a maximal one does not reach past its end:
   it would hold the maximal piece and the item that did not fit.
   */
  lemma FirstPieceReaches(sep: string, limit: int, g: seq<Piece>, o: seq<Piece>)
    requires g != [] && IsMaximal(sep, limit, g) && IsPacking(sep, limit, Flat(g), g)
    requires o != [] && IsPacking(sep, limit, Flat(o), o)
    requires IsSuffix(Flat(g), Flat(o))
    ensures IsSuffix(Flat(g[1..]), Flat(o[1..]))
  {
    hide Join;
    var gs, os := Flat(g[1..]), Flat(o[1..]);
    assert Flat(g) == g[0] + gs && Flat(o) == o[0] + os;
    HeadsAndRests(g[0], gs, o[0], os);
    if |gs| > |os| {
      hide IsSuffix;
      assert Fits(sep, limit, g[0]) && Fits(sep, limit, o[0]);
      assert |g| > 1 && IsFull(sep, limit, g[0], g[1]);
      assert gs == g[1] + Flat(g[1..][1..]);
      var over := g[0] + [gs[0]];
      var skipped :| 0 <= skipped && skipped + |g[0]| + 1 <= |o[0]| &&
                     o[0] == o[0][..skipped] + over + o[0][skipped + |g[0]| + 1..];
      StretchIsSmaller(sep, o[0][..skipped], over, o[0][skipped + |g[0]| + 1..]);
    }
  }

  /** A suffix never needs more maximal pieces than the whole needs pieces of any kind. */
  lemma {:induction false} MaximalStaysAhead(sep: string, limit: int, g: seq<Piece>, o: seq<Piece>)
    requires IsMaximal(sep, limit, g) && IsPacking(sep, limit, Flat(g), g)
    requires IsPacking(sep, limit, Flat(o), o)
    requires IsSuffix(Flat(g), Flat(o))
    ensures |g| <= |o|
  {
    if g != [] {
      assert Fits(sep, limit, g[0]);
      assert o != [];
      FirstPieceReaches(sep, limit, g, o);
      MaximalStaysAhead(sep, limit, g[1..], o[1..]);
    }
  }

  /** Greedy packing uses the fewest pieces of any consecutive packing within the limit. */
  lemma PackIsOptimal(sep: string, limit: int, items: seq<string>, other: seq<Piece>)
    requires IsPacking(sep, limit, items, other)
    ensures IsPacking(sep, limit, items, Pack(sep, limit, items))
    ensures |Pack(sep, limit, items)| <= |other|
  {
    PackIsGreedy(sep, limit, items);
    MaximalStaysAhead(sep, limit, Pack(sep, limit, items), other);
  }

  /** It is the only packing whose pieces have no room left for what follows. */
  lemma {:induction false} PackIsTheMaximalOne(sep: string, limit: int, g: seq<Piece>, h: seq<Piece>)
    requires IsPacking(sep, limit, Flat(g), g) && IsMaximal(sep, limit, g)
    requires IsPacking(sep, limit, Flat(h), h) && IsMaximal(sep, limit, h)
    requires Flat(g) == Flat(h)
    ensures g == h
  {
    hide Join;
    if g != [] && h != [] {
      FirstPieceReaches(sep, limit, g, h);
      FirstPieceReaches(sep, limit, h, g);
      SameHeads(g[0], Flat(g[1..]), h[0], Flat(h[1..]));
      PackIsTheMaximalOne(sep, limit, g[1..], h[1..]);
      assert g == [g[0]] + g[1..] && h == [h[0]] + h[1..];
    } else {
      NothingToPack(sep, limit, g);
      NothingToPack(sep, limit, h);
    }
  }

  lemma NothingToPack(sep: string, limit: int, pieces: seq<Piece>)
    requires IsPacking(sep, limit, Flat(pieces), pieces)
    ensures pieces == [] <==> Flat(pieces) == []
  {
    if pieces != [] { assert Fits(sep, limit, pieces[0]); }
  }

  lemma SameHeads(a: Piece, b: Piece, c: Piece, d: Piece)
    requires a + b == c + d && |b| == |d|
    ensures a == c && b == d
  {
    assert a == (a + b)[..|a|] && c == (c + d)[..|c|];
    assert b == (a + b)[|a|..] && d == (c + d)[|c|..];
  }

  /** `Pack` is characterized by what it produces, not by the order it works in. */
  lemma PackedExactlyWhen(sep: string, limit: int, items: seq<string>, pieces: seq<Piece>)
    ensures pieces == Pack(sep, limit, items) <==>
            IsPacking(sep, limit, items, pieces) && IsMaximal(sep, limit, pieces)
  {
    PackIsGreedy(sep, limit, items);
    if IsPacking(sep, limit, items, pieces) && IsMaximal(sep, limit, pieces) {
      PackIsTheMaximalOne(sep, limit, pieces, Pack(sep, limit, items));
    }
  }

  // ---------- catalog shards ----------

  const SHARD_TARGET: int := 145_000

  /** `data/{prefix}-{number:03d}.json` */
  datatype ShardName = ShardName(prefix: string, number: nat)

  type Directory = map<ShardName, string>

  /** The encoded shard; `commit` and the entries are their own JSON encodings, as bytes. */
  function Payload(commit: string, entries: Piece): string {
    "{\"commit\":" + commit + ",\"entries\":[" + Join(",", entries) + "]}"
  }

  /** What the target leaves for the joined entries. */
  function Room(commit: string): int {
    SHARD_TARGET - |Payload(commit, [])|
  }

  function Shards(commit: string, entries: seq<string>): seq<Piece> {
    Pack(",", Room(commit), entries)
  }

  predicate WithinTarget(commit: string, entries: Piece) {
    entries != [] && (|entries| == 1 || |Payload(commit, entries)| <= SHARD_TARGET)
  }

  /** Every shard is within the target or a single entry, and no other split does with fewer. */
  lemma ShardsAreOptimal(commit: string, entries: seq<string>, other: seq<Piece>)
    requires Flat(other) == entries && forall i :: 0 <= i < |other| ==> other[i] != []
    requires forall i :: 0 <= i < |other| && |other[i]| > 1 ==>
               |"{\"commit\":" + commit + ",\"entries\":[" + Join(",", other[i]) + "]}"| <= 145_000
    ensures var shards := Shards(commit, entries);
            && Flat(shards) == entries && |shards| <= |other|
            && (forall i :: 0 <= i < |shards| ==> shards[i] != [])
            && (forall i :: 0 <= i < |shards| && |shards[i]| > 1 ==>
                  |"{\"commit\":" + commit + ",\"entries\":[" + Join(",", shards[i]) + "]}"| <= 145_000)
  {
    forall piece: Piece ensures WithinTarget(commit, piece) == Fits(",", Room(commit), piece) {}
    PackIsOptimal(",", Room(commit), entries, other);
  }

  function Names(prefix: string, count: nat): seq<ShardName> {
    seq(count, (i: nat) => ShardName(prefix, i))
  }

  /** The output directory with the shards written over it, one file after the other. */
  function Written(output: Directory, prefix: string, commit: string, shards: seq<Piece>): Directory {
    if shards == [] then output
    else
      var n := |shards| - 1;
      Written(output, prefix, commit, shards[..n])[ShardName(prefix, n) := Payload(commit, shards[n])]
  }

  /** No shard overwrites another: each is found under its name, and every other file is as it was. */
  lemma {:induction false} WrittenAt(
    output: Directory, prefix: string, commit: string, shards: seq<Piece>, name: ShardName)
    ensures var mine := name.prefix == prefix && name.number < |shards|;
            var files := Written(output, prefix, commit, shards);
            && (name in files <==> mine || name in output)
            && (name in files && !mine ==> files[name] == output[name])
            && (mine ==>
                  files[name] == "{\"commit\":" + commit + ",\"entries\":[" + Join(",", shards[name.number]) + "]}")
  {
    if shards != [] {
      WrittenAt(output, prefix, commit, shards[..|shards| - 1], name);
    }
  }

  /** `write_shard` */
  method WriteShard(prefix: string, prior: seq<ShardName>, entries: Piece, commit: string, output: Directory)
    returns (name: ShardName, files: Directory)
    ensures name == ShardName(prefix, |prior|)
    ensures files == output[name := Payload(commit, entries)]
  {
    name := ShardName(prefix, |prior|);
    files := output[name := Payload(commit, entries)];
  }

  lemma WrittenAppend(output: Directory, prefix: string, commit: string, shards: seq<Piece>, shard: Piece)
    ensures Names(prefix, |shards| + 1) == Names(prefix, |shards|) + [ShardName(prefix, |shards|)]
    ensures Written(output, prefix, commit, shards + [shard]) ==
            Written(output, prefix, commit, shards)[ShardName(prefix, |shards|) := Payload(commit, shard)]
  {
    assert (shards + [shard])[..|shards|] == shards;
  }

  /** The shards finished so far and the one being filled. */
  function Open(done: seq<Piece>, current: Piece): seq<Piece> {
    if current == [] then done else done + [current]
  }

  /** What placing the next item does to an open packing. */
  lemma PlaceNext(sep: string, limit: int, items: seq<string>, i: nat, done: seq<Piece>, current: Piece)
    requires i < |items| && Pack(sep, limit, items[..i]) == Open(done, current)
    requires current == [] ==> done == []
    ensures Pack(sep, limit, items[..i + 1]) ==
            if current != [] && |Join(sep, current + [items[i]])| > limit
            then Open(done + [current], [items[i]]) else Open(done, current + [items[i]])
  {
    hide Join;
    assert items[..i + 1][..i] == items[..i];
    if current == [] {
      assert current + [items[i]] == [items[i]];
    } else {
      var pieces := Open(done, current);
      assert pieces[..|pieces| - 1] == done && pieces[|pieces| - 1] == current;
    }
  }

  lemma NothingPacked(sep: string, limit: int, items: seq<string>)
    ensures Pack(sep, limit, items[..0]) == [] && Join(sep, []) == []
  {
    assert items[..0] == [];
  }

  /** `shard_entries`: writes exactly the greedy shards, numbered from zero, and nothing else. */
  method ShardEntries(entries: seq<string>, commit: string, prefix: string, output: Directory)
      returns (names: seq<ShardName>, files: Directory)
    ensures names == Names(prefix, |Shards(commit, entries)|)
    ensures files == Written(output, prefix, commit, Shards(commit, entries))
  {
    hide Pack, Join, Written, Names;
    names, files := [], output;
    var current: Piece := [];
    ghost var done: seq<Piece> := [];
    NothingWritten(output, prefix, commit);
    NothingPacked(",", Room(commit), entries);
    for i := 0 to |entries|
      invariant names == Names(prefix, |done|) && files == Written(output, prefix, commit, done)
      invariant Pack(",", Room(commit), entries[..i]) == Open(done, current)
      invariant current == [] ==> done == []
    {
      var entry := entries[i];
      var candidate := current + [entry];
      PlaceNext(",", Room(commit), entries, i, done, current);
      PayloadRoom(commit, candidate);
      if current != [] && |Payload(commit, candidate)| > SHARD_TARGET {
        var name;
        NamesLength(prefix, |done|);
        name, files := WriteShard(prefix, names, current, commit, files);
        WrittenAppend(output, prefix, commit, done, current);
        names := names + [name];
        done := done + [current];
        current := [entry];
      } else {
        current := candidate;
      }
    }
    assert entries[..|entries|] == entries;
    if current != [] {
      var name;
      NamesLength(prefix, |done|);
      name, files := WriteShard(prefix, names, current, commit, files);
      WrittenAppend(output, prefix, commit, done, current);
      names := names + [name];
    }
  }

  lemma NothingWritten(output: Directory, prefix: string, commit: string)
    ensures Names(prefix, 0) == [] && Written(output, prefix, commit, []) == output
  {}

  lemma PayloadRoom(commit: string, entries: Piece)
    ensures |Payload(commit, entries)| > SHARD_TARGET <==> |Join(",", entries)| > Room(commit)
  {}

  lemma NamesLength(prefix: string, count: nat)
    ensures |Names(prefix, count)| == count
  {}

  // ---------- folded lines ----------

  const LINE_LIMIT: int := 76

  const INDENT: string := "  "

  function Indented(pieces: seq<Piece>): (lines: seq<string>)
    ensures |lines| == |pieces|
  {
    seq(|pieces|, i requires 0 <= i < |pieces| => INDENT + Join(" ", pieces[i]))
  }

  function FoldedLines(value: string): seq<string> {
    Indented(Pack(" ", LINE_LIMIT, Words(value)))
  }

  /**
   `yaml_block`: the words of the value on as few lines as 76 columns allow. The running
   length is never recomputed.
   */
  method YamlBlock(value: string) returns (block: string)
    ensures block == Join("\n", FoldedLines(value))
  {
    hide Pack, Join, Words;
    var words := Words(value);
    var lines: seq<string> := [];
    var current: Piece := [];
    var length := 0;
    ghost var done: seq<Piece> := [];
    NothingPacked(" ", LINE_LIMIT, words);
    for i := 0 to |words|
      invariant lines == Indented(done)
      invariant length == |Join(" ", current)|
      invariant Pack(" ", LINE_LIMIT, words[..i]) == Open(done, current)
      invariant current == [] ==> done == []
    {
      var word := words[i];
      var projected := length + |word| + (if current != [] then 1 else 0);
      PlaceNext(" ", LINE_LIMIT, words, i, done, current);
      JoinSnoc(current, word);
      if current != [] && projected > LINE_LIMIT {
        lines := lines + [INDENT + Join(" ", current)];
        done := done + [current];
        current, length := [word], |word|;
        JoinSnoc([], word);
        assert [] + [word] == [word];
      } else {
        current, length := current + [word], projected;
      }
    }
    assert words[..|words|] == words;
    if current != [] {
      lines := lines + [INDENT + Join(" ", current)];
    }
    assert lines == Indented(Open(done, current));
    block := Join("\n", lines);
  }

  lemma JoinSnoc(words: Piece, word: string)
    ensures |Join(" ", words + [word])| == |Join(" ", words)| + |word| + if words != [] then 1 else 0
  {
    if words != [] { JoinAppend(" ", words, [word]); } else { assert words + [word] == [word]; }
  }

  /** Each line holds at most 76 columns of words, or one longer word, and no other layout is shorter. */
  lemma FoldedLinesAreOptimal(value: string, other: seq<Piece>)
    requires IsPacking(" ", 76, Words(value), other)
    ensures var lines := FoldedLines(value);
            && |lines| <= |other|
            && forall i :: 0 <= i < |lines| ==>
                 |lines[i]| >= 2 && lines[i][..2] == "  " && (|lines[i]| <= 78 || lines[i][2..] in Words(value))
  {
    var pieces := Pack(" ", LINE_LIMIT, Words(value));
    PackIsOptimal(" ", LINE_LIMIT, Words(value), other);
    forall i | 0 <= i < |pieces|
      ensures |INDENT + Join(" ", pieces[i])| <= |INDENT| + LINE_LIMIT || Join(" ", pieces[i]) in Words(value)
    {
      assert Fits(" ", LINE_LIMIT, pieces[i]);
      if |pieces[i]| == 1 {
        FlatHolds(pieces, i);
        assert pieces[i][0] in pieces[i];
      }
    }
  }

  lemma {:induction false} FlatHolds(pieces: seq<Piece>, i: nat)
    requires i < |pieces|
    ensures forall x :: x in pieces[i] ==> x in Flat(pieces)
  {
    if i > 0 { FlatHolds(pieces[1..], i - 1); }
  }
}
