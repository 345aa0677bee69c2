/**
 * The lines `syncContext` sends to the assistant: `/drop *`, then one `/add`
 * line with the writable paths, then one `/read` line with the read-only
 * paths, each path wrapped in double quotes. Besides the rendering this module
 * gives the assistant's reading of those lines (parsing and applying them to
 * its own context), so that it can be proved that a sync makes the
 * assistant's context equal to the store, whatever it held before.
 */
module SyncProtocol {
  import opened Wrappers
  import opened OrderedMaps
  import opened ContextStore

  const DropAllLine: string := "/drop *"

  /** One command of the text-line interface (only the ones a sync sends). */
  datatype Directive = DropAll | AddWritable(paths: seq<string>) | AddReadOnly(paths: seq<string>)

  function Quote(p: string): string
  {
    "\"" + p + "\""
  }

  /**
   * Every path wrapped in double quotes, separated by single spaces; a quote
   * inside a path is not escaped.
   */
  function JoinQuoted(ps: seq<string>): (r: string)
    ensures ps == [] <==> r == ""
    decreases |ps|
  {
    if ps == [] then ""
    else if |ps| == 1 then Quote(ps[0])
    else Quote(ps[0]) + " " + JoinQuoted(ps[1..])
  }

  function Render(d: Directive): string
  {
    match d
    case DropAll => DropAllLine
    case AddWritable(ps) => "/add " + JoinQuoted(ps)
    case AddReadOnly(ps) => "/read " + JoinQuoted(ps)
  }

  function RenderAll(ds: seq<Directive>): (lines: seq<string>)
    ensures |lines| == |ds|
    ensures forall i :: 0 <= i < |ds| ==> lines[i] == Render(ds[i])
  {
    if ds == [] then [] else [Render(ds[0])] + RenderAll(ds[1..])
  }

  // ---------------------------------------------------------------------------
  // Partition of the store (`readOnlyFiles` and `normalFiles`)
  // ---------------------------------------------------------------------------

  /** The keys whose flag equals `readOnly`, in store order. */
  function KeysWithMode(keys: seq<string>, values: map<string, bool>, readOnly: bool): (r: seq<string>)
    requires forall k :: k in keys ==> k in values
    ensures forall k :: k in r <==> k in keys && values[k] == readOnly
    decreases |keys|
  {
    if keys == [] then []
    else
      var init, last := keys[..|keys| - 1], keys[|keys| - 1];
      assert keys == init + [last];
      KeysWithMode(init, values, readOnly) + (if values[last] == readOnly then [last] else [])
  }

  /** The files not in `excluded`, in their original order. */
  function Excluding(files: seq<string>, excluded: seq<string>): (r: seq<string>)
    ensures forall k :: k in r <==> k in files && k !in excluded
    decreases |files|
  {
    if files == [] then []
    else
      var init, last := files[..|files| - 1], files[|files| - 1];
      assert files == init + [last];
      Excluding(init, excluded) + (if last in excluded then [] else [last])
  }

  /** The paths tracked read-only, in store order. */
  function ReadOnlyFiles(s: Store): (r: seq<string>)
    requires s.Valid()
    ensures forall k :: k in r <==> s.Has(k) && s.values[k]
  {
    KeysWithMode(s.keys, s.values, true)
  }

  /** The tracked paths that are not read-only, in store order. */
  function NormalFiles(s: Store): (r: seq<string>)
    requires s.Valid()
    ensures forall k :: k in r <==> s.Has(k) && !s.values[k]
  {
    Excluding(s.keys, ReadOnlyFiles(s))
  }

  /** The directives of a sync with writable part `w` and read-only part `ro`. */
  function SyncOf(w: seq<string>, ro: seq<string>): seq<Directive>
  {
    [DropAll]
    + (if w != [] then [AddWritable(w)] else [])
    + (if ro != [] then [AddReadOnly(ro)] else [])
  }

  /** The lines of `SyncOf(w, ro)`, spelled out. */
  lemma RenderSyncOf(w: seq<string>, ro: seq<string>)
    ensures RenderAll(SyncOf(w, ro))
         == [DropAllLine]
            + (if w != [] then ["/add " + JoinQuoted(w)] else [])
            + (if ro != [] then ["/read " + JoinQuoted(ro)] else [])
  {
    var ds := SyncOf(w, ro);
    var lines := [DropAllLine]
            + (if w != [] then ["/add " + JoinQuoted(w)] else [])
            + (if ro != [] then ["/read " + JoinQuoted(ro)] else []);
    assert |lines| == |ds|;
    forall i | 0 <= i < |ds| ensures RenderAll(ds)[i] == lines[i] {
    }
  }

  /** The directives a sync sends for the store, in order. */
  function SyncDirectives(s: Store): seq<Directive>
    requires s.Valid()
  {
    SyncOf(NormalFiles(s), ReadOnlyFiles(s))
  }

  /** The lines a sync sends for the store, in order. */
  function SyncLines(s: Store): (r: seq<string>)
    requires s.Valid()
    ensures 1 <= |r| <= 3 && r[0] == DropAllLine
  {
    RenderAll(SyncDirectives(s))
  }

  /** The lines a sync sends, spelled out in terms of the two parts of the store. */
  lemma SyncLinesSpelled(s: Store)
    requires s.Valid()
    ensures SyncLines(s)
         == [DropAllLine]
            + (if NormalFiles(s) != [] then ["/add " + JoinQuoted(NormalFiles(s))] else [])
            + (if ReadOnlyFiles(s) != [] then ["/read " + JoinQuoted(ReadOnlyFiles(s))] else [])
  {
    RenderSyncOf(NormalFiles(s), ReadOnlyFiles(s));
  }

  /** `sub` lists keys of `keys`, each at a later store position than the one before. */
  ghost predicate InStoreOrder(sub: seq<string>, keys: seq<string>)
  {
    && (forall k :: k in sub ==> k in keys)
    && forall i, j :: 0 <= i < j < |sub| ==> sub[i] in keys && sub[j] in keys && IndexOf(keys, sub[i]) < IndexOf(keys, sub[j])
  }

  /** A key of a prefix has the same position in the whole order. */
  lemma IndexOfPrefix(keys: seq<string>, n: nat, x: string)
    requires n <= |keys| && x in keys[..n]
    ensures IndexOf(keys, x) == IndexOf(keys[..n], x)
  {
    var i := IndexOf(keys[..n], x);
    assert keys[i] == x;
    var j := IndexOf(keys, x);
    assert j <= i;
    assert keys[..n][j] == x;
  }

  /** Two entries of an in-order selection of a prefix, possibly followed by the last key. */
  lemma InOrderPair(keys: seq<string>, prev: seq<string>, extra: seq<string>, i: nat, j: nat)
    requires Distinct(keys) && keys != []
    requires InStoreOrder(prev, keys[..|keys| - 1])
    requires extra == [] || extra == [keys[|keys| - 1]]
    requires i < j < |prev + extra|
    ensures (prev + extra)[i] in keys && (prev + extra)[j] in keys
    ensures IndexOf(keys, (prev + extra)[i]) < IndexOf(keys, (prev + extra)[j])
  {
    var n := |keys| - 1;
    var r := prev + extra;
    assert r[i] == prev[i] && r[i] in keys[..n];
    IndexOfPrefix(keys, n, r[i]);
    if j < |prev| {
      assert r[j] == prev[j] && r[j] in keys[..n];
      IndexOfPrefix(keys, n, r[j]);
    } else {
      assert r[j] == keys[n];
      assert IndexOf(keys, keys[n]) == n;
    }
  }

  lemma {:induction false} KeysWithModeInOrder(keys: seq<string>, values: map<string, bool>, readOnly: bool)
    requires Distinct(keys)
    requires forall k :: k in keys ==> k in values
    ensures InStoreOrder(KeysWithMode(keys, values, readOnly), keys)
    decreases |keys|
  {
    if keys != [] {
      var n := |keys| - 1;
      var init, last := keys[..n], keys[n];
      assert forall a :: 0 <= a < n ==> init[a] == keys[a];
      KeysWithModeInOrder(init, values, readOnly);
      var prev := KeysWithMode(init, values, readOnly);
      var extra := if values[last] == readOnly then [last] else [];
      var r := KeysWithMode(keys, values, readOnly);
      assert r == prev + extra;
      forall i, j | 0 <= i < j < |r|
        ensures r[i] in keys && r[j] in keys && IndexOf(keys, r[i]) < IndexOf(keys, r[j])
      {
        InOrderPair(keys, prev, extra, i, j);
      }
    }
  }

  lemma {:induction false} ExcludingReadOnly(ks: seq<string>, keys: seq<string>, values: map<string, bool>)
    requires forall k :: k in keys ==> k in values
    requires forall k :: k in ks ==> k in keys
    ensures Excluding(ks, KeysWithMode(keys, values, true)) == KeysWithMode(ks, values, false)
    decreases |ks|
  {
    if ks != [] {
      var init := ks[..|ks| - 1];
      assert ks == init + [ks[|ks| - 1]];
      ExcludingReadOnly(init, keys, values);
    }
  }

  /**
   * The writable and read-only paths of a sync split the store's keys into two
   * disjoint parts, each in store order.
   */
  lemma PartitionOfStore(s: Store)
    requires s.Valid()
    ensures NormalFiles(s) == KeysWithMode(s.keys, s.values, false)
    ensures forall k :: k in NormalFiles(s) <==> s.Has(k) && !s.values[k]
    ensures forall k :: k in ReadOnlyFiles(s) <==> s.Has(k) && s.values[k]
  {
    ExcludingReadOnly(s.keys, s.keys, s.values);
  }

  /** Both parts list their paths in store order. */
  lemma PartitionInStoreOrder(s: Store)
    requires s.Valid()
    ensures InStoreOrder(NormalFiles(s), s.keys) && InStoreOrder(ReadOnlyFiles(s), s.keys)
  {
    PartitionOfStore(s);
    KeysWithModeInOrder(s.keys, s.values, false);
    KeysWithModeInOrder(s.keys, s.values, true);
  }

  /** The exact shape of a sync's output. */
  lemma SyncShape(s: Store)
    requires s.Valid()
    ensures var lines := SyncLines(s);
      && 1 <= |lines| <= 3
      && lines[0] == DropAllLine
      && (NormalFiles(s) != [] ==> lines[1] == "/add " + JoinQuoted(NormalFiles(s)))
      && (ReadOnlyFiles(s) != [] ==> lines[|lines| - 1] == "/read " + JoinQuoted(ReadOnlyFiles(s)))
      && |lines| == 1 + (if NormalFiles(s) != [] then 1 else 0) + (if ReadOnlyFiles(s) != [] then 1 else 0)
  {
  }

  /** An empty store syncs as the single clearing line. */
  lemma SyncEmpty()
    ensures SyncLines(Empty()) == [DropAllLine]
  {
    var e: Store := Empty();
    assert ReadOnlyFiles(e) == [] && NormalFiles(e) == [];
  }

  /** The store `{"/a.ts": writable, "/b.ts": read-only}`, in that order. */
  function TwoFiles(): (s: Store)
    ensures s.Valid()
  {
    var s: Store := OrderedMap(["/a.ts", "/b.ts"], map["/a.ts" := false, "/b.ts" := true]);
    assert "/a.ts" != "/b.ts" by { assert "/a.ts"[1] != "/b.ts"[1]; }
    assert forall k :: k in s.values <==> k in s.keys;
    s
  }

  /** The two parts of `TwoFiles()`. */
  lemma TwoFilesParts()
    ensures ReadOnlyFiles(TwoFiles()) == ["/b.ts"]
    ensures NormalFiles(TwoFiles()) == ["/a.ts"]
  {
    var s := TwoFiles();
    assert s.keys[..1] == ["/a.ts"] && s.keys[..1][..0] == [];
    assert KeysWithMode(s.keys[..1], s.values, true) == [];
    assert ReadOnlyFiles(s) == ["/b.ts"];
    assert ["/a.ts", "/b.ts"][..1] == ["/a.ts"];
    assert Excluding(["/a.ts"], ["/b.ts"]) == ["/a.ts"];
  }

  /** One writable and one read-only file: clear, one `/add`, one `/read`. */
  lemma SyncTwoFiles()
    ensures SyncLines(TwoFiles()) == [DropAllLine, "/add \"/a.ts\"", "/read \"/b.ts\""]
  {
    TwoFilesParts();
    RenderSyncOf(["/a.ts"], ["/b.ts"]);
    assert JoinQuoted(["/a.ts"]) == Quote("/a.ts");
    assert JoinQuoted(["/b.ts"]) == Quote("/b.ts");
    TwoFilesSpelled();
    assert SyncLines(TwoFiles()) == RenderAll(SyncOf(["/a.ts"], ["/b.ts"]));
  }

  /** The two quoted lines of `TwoFiles()`, as literal strings. */
  lemma TwoFilesSpelled()
    ensures "/add " + Quote("/a.ts") == "/add \"/a.ts\""
    ensures "/read " + Quote("/b.ts") == "/read \"/b.ts\""
  {
  }

  // ---------------------------------------------------------------------------
  // The assistant's side: what the lines mean
  // ---------------------------------------------------------------------------

  /** The assistant's context after one directive: path to read-only flag. */
  function Apply(ctx: map<string, bool>, d: Directive): map<string, bool>
  {
    match d
    case DropAll => map[]
    case AddWritable(ps) => ctx + map p | p in ps :: false
    case AddReadOnly(ps) => ctx + map p | p in ps :: true
  }

  function Replay(ctx: map<string, bool>, ds: seq<Directive>): map<string, bool>
    decreases |ds|
  {
    if ds == [] then ctx else Replay(Apply(ctx, ds[0]), ds[1..])
  }

  lemma ReplaySyncOf(ctx: map<string, bool>, w: seq<string>, ro: seq<string>)
    ensures Replay(ctx, SyncOf(w, ro)) == (map p | p in w :: false) + (map p | p in ro :: true)
  {
    var mw, mro := map p | p in w :: false, map p | p in ro :: true;
    var ds := SyncOf(w, ro);
    assert Replay(ctx, ds) == Replay(map[], ds[1..]);
    if w == [] {
      assert mw == map[];
      if ro == [] {
        assert mro == map[];
      } else {
        assert ds[1..] == [AddReadOnly(ro)];
        assert Replay(map[], ds[1..]) == Replay(map[] + mro, []);
      }
    } else if ro == [] {
      assert mro == map[];
      assert ds[1..] == [AddWritable(w)];
      assert Replay(map[], ds[1..]) == Replay(map[] + mw, []);
      assert map[] + mw == mw + mro;
    } else {
      assert ds[1..] == [AddWritable(w), AddReadOnly(ro)];
      assert Replay(map[], ds[1..]) == Replay(map[] + mw, [AddReadOnly(ro)]);
      assert map[] + mw == mw;
      assert Replay(mw, [AddReadOnly(ro)]) == Replay(mw + mro, []);
    }
  }

  /**
   * Whatever the assistant's context was, replaying a sync leaves it equal to
   * the store that was synced. `Session.CleanSessionMatchesAssistant` builds
   * on it for a clean session, and two syncs in a row agree because of it.
   */
  lemma SyncReproducesStore(s: Store, ctx: map<string, bool>)
    requires s.Valid()
    ensures Replay(ctx, SyncDirectives(s)) == s.values
  {
    PartitionOfStore(s);
    ReplaySyncOf(ctx, NormalFiles(s), ReadOnlyFiles(s));
    PartsRebuildMap(NormalFiles(s), ReadOnlyFiles(s), s.values);
  }

  lemma PartsRebuildMap(w: seq<string>, ro: seq<string>, values: map<string, bool>)
    requires forall k :: k in w <==> k in values && !values[k]
    requires forall k :: k in ro <==> k in values && values[k]
    ensures (map p | p in w :: false) + (map p | p in ro :: true) == values
  {
    var r := (map p | p in w :: false) + (map p | p in ro :: true);
    forall k | k in values ensures k in r && r[k] == values[k] {
      if values[k] { assert k in ro; } else { assert k in w && k !in ro; }
    }
    assert r.Keys == values.Keys;
  }

  // ---------------------------------------------------------------------------
  // Reading a line back
  // ---------------------------------------------------------------------------

  /** First index at or after `i` holding a double quote, or `|s|`. */
  function CloseQuote(s: string, i: nat): (j: nat)
    requires i <= |s|
    ensures i <= j <= |s|
    ensures j < |s| ==> s[j] == '"'
    ensures forall k :: i <= k < j ==> s[k] != '"'
    decreases |s| - i
  {
    if i == |s| || s[i] == '"' then i else CloseQuote(s, i + 1)
  }

  /** `"p1" "p2" ...` with at least one item. */
  function ParseItems(s: string): Option<seq<string>>
    decreases |s|
  {
    if |s| == 0 || s[0] != '"' then None
    else
      var j := CloseQuote(s, 1);
      if j == |s| then None
      else
        var rest := s[j + 1..];
        if rest == "" then Some([s[1..j]])
        else if rest[0] != ' ' then None
        else
          match ParseItems(rest[1..])
          case None => None
          case Some(more) => Some([s[1..j]] + more)
  }

  function ParseQuoted(s: string): Option<seq<string>>
  {
    if s == "" then Some([]) else ParseItems(s)
  }

  function ParseLine(line: string): Option<Directive>
  {
    if line == DropAllLine then Some(DropAll)
    else if |line| >= 5 && line[..5] == "/add " then
      match ParseQuoted(line[5..])
      case None => None
      case Some(ps) => Some(AddWritable(ps))
    else if |line| >= 6 && line[..6] == "/read " then
      match ParseQuoted(line[6..])
      case None => None
      case Some(ps) => Some(AddReadOnly(ps))
    else None
  }

  predicate QuoteFree(p: string)
  {
    '"' !in p
  }

  predicate AllQuoteFree(ps: seq<string>)
  {
    forall p :: p in ps ==> QuoteFree(p)
  }

  lemma {:induction false} CloseQuoteSkips(p: string, tail: string, i: nat)
    requires QuoteFree(p)
    requires 1 <= i <= |p| + 1
    ensures CloseQuote(Quote(p) + tail, i) == |p| + 1
    decreases |p| + 1 - i
  {
    var s := Quote(p) + tail;
    if i <= |p| {
      assert s[i] == p[i - 1];
      CloseQuoteSkips(p, tail, i + 1);
    } else {
      assert s[i] == '"';
    }
  }

  /** Reading the first item of a line that starts with a quoted, quote-free path. */
  lemma ParseHead(p: string, tail: string)
    requires QuoteFree(p)
    ensures tail == "" ==> ParseItems(Quote(p) + tail) == Some([p])
    ensures |tail| > 0 && tail[0] == ' ' && ParseItems(tail[1..]).Some? ==>
      ParseItems(Quote(p) + tail) == Some([p] + ParseItems(tail[1..]).value)
  {
    var s := Quote(p) + tail;
    CloseQuoteSkips(p, tail, 1);
    assert s[1..|p| + 1] == p;
    assert s[|p| + 2..] == tail;
  }

  lemma {:induction false} ParseJoinQuoted(ps: seq<string>)
    requires ps != [] && AllQuoteFree(ps)
    ensures ParseItems(JoinQuoted(ps)) == Some(ps)
    decreases |ps|
  {
    var p := ps[0];
    if |ps| > 1 {
      var rest := JoinQuoted(ps[1..]);
      var tail := " " + rest;
      assert JoinQuoted(ps) == Quote(p) + tail;
      assert tail[1..] == rest;
      ParseJoinQuoted(ps[1..]);
      ParseHead(p, tail);
      assert ps == [p] + ps[1..];
    } else {
      assert JoinQuoted(ps) == Quote(p) + "";
      ParseHead(p, "");
      assert ps == [p];
    }
  }

  predicate WellFormed(d: Directive)
  {
    match d
    case DropAll => true
    case AddWritable(ps) => AllQuoteFree(ps)
    case AddReadOnly(ps) => AllQuoteFree(ps)
  }

  /** Reading a rendered directive gives it back, when no path holds a double quote. */
  lemma ParseRender(d: Directive)
    requires WellFormed(d)
    ensures ParseLine(Render(d)) == Some(d)
  {
    match d
    case DropAll =>
    case AddWritable(ps) =>
      var line := Render(d);
      assert line[..5] == "/add ";
      assert line[1] != DropAllLine[1];
      assert line[5..] == JoinQuoted(ps);
      if ps != [] { ParseJoinQuoted(ps); }
    case AddReadOnly(ps) =>
      var line := Render(d);
      assert line[..6] == "/read ";
      assert line[1] != DropAllLine[1];
      assert line[..5] != "/add ";
      assert line[6..] == JoinQuoted(ps);
      if ps != [] { ParseJoinQuoted(ps); }
  }

  /** Every line of a sync reads back as the intended directive when no tracked path holds a double quote. */
  lemma SyncLinesReadBack(s: Store)
    requires s.Valid() && AllQuoteFree(s.keys)
    ensures forall i :: 0 <= i < |SyncLines(s)| ==> ParseLine(SyncLines(s)[i]) == Some(SyncDirectives(s)[i])
  {
    PartitionOfStore(s);
    var ds := SyncDirectives(s);
    forall i | 0 <= i < |ds| ensures ParseLine(SyncLines(s)[i]) == Some(ds[i]) {
      ParseRender(ds[i]);
    }
  }

  /**
   * Paths are quoted but not escaped: a single path holding `" "` renders
   * exactly like two paths.
   */
  lemma QuotingIsAmbiguous()
    ensures JoinQuoted(["a\" \"b"]) == JoinQuoted(["a", "b"])
    ensures ["a\" \"b"] != ["a", "b"]
  {
    assert ["a", "b"][1..] == ["b"];
  }
}
