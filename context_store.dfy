/**
 * `_contextFiles`: absolute path to its `readOnly` flag, in insertion order,
 * and the batch upsert performed by `addFiles`.
 */
module ContextStore {
  import opened OrderedMaps

  type Store = OrderedMap<string, bool>

  /** The test in `addFiles`: the path is absent or tracked with another mode. */
  predicate NeedsUpdate(s: Store, p: string, readOnly: bool)
  {
    !s.Has(p) || s.values[p] != readOnly
  }

  /** Some path of the batch needs an update: what sets `changed` in `addFiles`. */
  predicate AnyNeedsUpdate(s: Store, ps: seq<string>, readOnly: bool)
  {
    exists p :: p in ps && NeedsUpdate(s, p, readOnly)
  }

  /** One step of the `addFiles` loop. */
  function Upsert(s: Store, p: string, readOnly: bool): (r: Store)
    requires s.Valid()
    ensures r.Valid()
    ensures r.Has(p) && r.values[p] == readOnly
  {
    if NeedsUpdate(s, p, readOnly) then s.Set(p, readOnly) else s
  }

  /** The `addFiles` loop over a batch, left to right. */
  function UpsertAll(s: Store, ps: seq<string>, readOnly: bool): (r: Store)
    requires s.Valid()
    ensures r.Valid()
    decreases |ps|
  {
    if ps == [] then s
    else Upsert(UpsertAll(s, ps[..|ps| - 1], readOnly), ps[|ps| - 1], readOnly)
  }

  /** After the batch every path in it is tracked with the requested mode. */
  lemma {:induction false} UpsertAllTracks(s: Store, ps: seq<string>, readOnly: bool)
    requires s.Valid()
    ensures forall p :: p in ps ==> UpsertAll(s, ps, readOnly).Has(p) && UpsertAll(s, ps, readOnly).values[p] == readOnly
    decreases |ps|
  {
    if ps != [] {
      var init := ps[..|ps| - 1];
      UpsertAllTracks(s, init, readOnly);
      assert ps == init + [ps[|ps| - 1]];
    }
  }

  /** Entries whose path is not in the batch are untouched. */
  lemma {:induction false} UpsertAllFrame(s: Store, ps: seq<string>, readOnly: bool, k: string)
    requires s.Valid()
    requires k !in ps
    ensures UpsertAll(s, ps, readOnly).Has(k) <==> s.Has(k)
    ensures s.Has(k) ==> UpsertAll(s, ps, readOnly).values[k] == s.values[k]
    decreases |ps|
  {
    if ps != [] {
      var init := ps[..|ps| - 1];
      assert ps == init + [ps[|ps| - 1]];
      UpsertAllFrame(s, init, readOnly, k);
    }
  }

  /** A batch upserted into an empty store tracks exactly the batch, all with the requested mode. */
  lemma UpsertAllFromEmpty(ps: seq<string>, readOnly: bool)
    ensures forall p :: UpsertAll(Empty(), ps, readOnly).Has(p) <==> p in ps
    ensures forall p :: UpsertAll(Empty(), ps, readOnly).Has(p) ==> UpsertAll(Empty(), ps, readOnly).values[p] == readOnly
  {
    var e: Store := Empty();
    UpsertAllTracks(e, ps, readOnly);
    forall p | p !in ps ensures !UpsertAll(e, ps, readOnly).Has(p) {
      UpsertAllFrame(e, ps, readOnly, p);
    }
  }

  /** A path still needs an update after a batch exactly when it needed one before and the batch missed it. */
  lemma {:induction false} UpsertAllNeedsUpdate(s: Store, ps: seq<string>, readOnly: bool, p: string)
    requires s.Valid()
    ensures NeedsUpdate(UpsertAll(s, ps, readOnly), p, readOnly) <==> NeedsUpdate(s, p, readOnly) && p !in ps
  {
    if p in ps {
      UpsertAllTracks(s, ps, readOnly);
    } else {
      UpsertAllFrame(s, ps, readOnly, p);
    }
  }

  /**
   * One more iteration of the `addFiles` loop: the batch grows by one upsert, and
   * the `changed` flag grows by whether that path needs an update at this point.
   */
  lemma {:induction false} UpsertAllStep(s: Store, ps: seq<string>, i: nat, readOnly: bool)
    requires s.Valid()
    requires i < |ps|
    ensures UpsertAll(s, ps[..i + 1], readOnly) == Upsert(UpsertAll(s, ps[..i], readOnly), ps[i], readOnly)
    ensures AnyNeedsUpdate(s, ps[..i + 1], readOnly)
        <==> AnyNeedsUpdate(s, ps[..i], readOnly) || NeedsUpdate(UpsertAll(s, ps[..i], readOnly), ps[i], readOnly)
  {
    var done, p := ps[..i], ps[i];
    assert ps[..i + 1] == done + [p];
    assert (done + [p])[..|done + [p]| - 1] == done;
    UpsertAllNeedsUpdate(s, done, readOnly, p);
    if NeedsUpdate(s, p, readOnly) {
      assert p in done + [p];
    }
    forall q | q in done + [p] && NeedsUpdate(s, q, readOnly) && q != p
      ensures q in done
    {
    }
  }

  /**
   * The `addFiles` loop: each path that is absent or tracked with the other
   * mode is set, and `changed` records whether any was.
   */
  method UpsertBatch(s: Store, ps: seq<string>, readOnly: bool) returns (r: Store, changed: bool)
    requires s.Valid()
    ensures r == UpsertAll(s, ps, readOnly)
    ensures changed <==> AnyNeedsUpdate(s, ps, readOnly)
    ensures changed <==> r != s
  {
    r, changed := s, false;
    var i := 0;
    while i < |ps|
      invariant 0 <= i <= |ps|
      invariant r == UpsertAll(s, ps[..i], readOnly)
      invariant changed <==> AnyNeedsUpdate(s, ps[..i], readOnly)
    {
      var p := ps[i];
      UpsertAllStep(s, ps, i, readOnly);
      if !r.Has(p) || r.values[p] != readOnly {
        r := r.Set(p, readOnly);
        changed := true;
      }
      i := i + 1;
    }
    assert ps[..i] == ps;
    UpsertAllChanges(s, ps, readOnly);
  }

  /** The batch changes the store exactly when some path in it needed an update. */
  lemma {:induction false} UpsertAllChanges(s: Store, ps: seq<string>, readOnly: bool)
    requires s.Valid()
    ensures UpsertAll(s, ps, readOnly) != s <==> AnyNeedsUpdate(s, ps, readOnly)
    decreases |ps|
  {
    var r := UpsertAll(s, ps, readOnly);
    if p :| p in ps && NeedsUpdate(s, p, readOnly) {
      UpsertAllTracks(s, ps, readOnly);
      assert r.values[p] == readOnly;
    } else if ps != [] {
      var init := ps[..|ps| - 1];
      assert ps == init + [ps[|ps| - 1]];
      UpsertAllChanges(s, init, readOnly);
      UpsertAllNeedsUpdate(s, init, readOnly, ps[|ps| - 1]);
    }
  }

  /** Existing entries keep their positions; new paths are appended after them. */
  lemma {:induction false} UpsertAllKeepsOrder(s: Store, ps: seq<string>, readOnly: bool)
    requires s.Valid()
    ensures |s.keys| <= |UpsertAll(s, ps, readOnly).keys|
    ensures UpsertAll(s, ps, readOnly).keys[..|s.keys|] == s.keys
    ensures forall k :: k in UpsertAll(s, ps, readOnly).keys[|s.keys|..] ==> k in ps
    decreases |ps|
  {
    if ps != [] {
      var n := |ps| - 1;
      UpsertAllKeepsOrder(s, ps[..n], readOnly);
      var mid := UpsertAll(s, ps[..n], readOnly);
      var r := UpsertAll(s, ps, readOnly);
      assert r == Upsert(mid, ps[n], readOnly);
      UpsertKeys(mid, ps[n], readOnly);
      assert r.keys[..|mid.keys|] == mid.keys;
      assert r.keys[..|s.keys|] == mid.keys[..|s.keys|];
      forall k | k in r.keys[|s.keys|..] ensures k in ps {
        var a :| |s.keys| <= a < |r.keys| && r.keys[a] == k;
        if a < |mid.keys| {
          assert mid.keys[|s.keys|..][a - |s.keys|] == k;
          assert k in ps[..n];
        } else {
          assert k == ps[n];
        }
      }
    }
  }

  /** One upsert keeps the key order, or appends the new path at the end. */
  lemma UpsertKeys(s: Store, p: string, readOnly: bool)
    requires s.Valid()
    ensures Upsert(s, p, readOnly).keys == s.keys || Upsert(s, p, readOnly).keys == s.keys + [p]
  {
  }

  /** Adding a path writable and then read-only leaves one read-only entry, and the second add is a change. */
  lemma ModeOverwrite(s: Store, p: string)
    requires s.Valid()
    ensures var first := UpsertAll(s, [p], false);
      && NeedsUpdate(first, p, true)
      && UpsertAll(first, [p], true).Has(p)
      && UpsertAll(first, [p], true).values[p]
      && UpsertAll(first, [p], true).keys == first.keys
      && first.keys == (if s.Has(p) then s.keys else s.keys + [p])
  {
    var first := UpsertAll(s, [p], false);
    assert [p][..0] == [];
    assert UpsertAll(s, [], false) == s;
    assert first == Upsert(s, p, false);
    assert UpsertAll(first, [], true) == first;
    assert UpsertAll(first, [p], true) == Upsert(first, p, true);
  }
}
