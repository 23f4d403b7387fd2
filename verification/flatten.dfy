/**
 Flattening of nested dictionaries: `flatten` replaces every nested dictionary
 by its entries, joining the keys on the path with `.`, so that
 `{"a": {"b": 0, "c": 1}}` becomes `{"a.b": 0, "a.c": 1}`.

 A Python dictionary keeps its keys in insertion order, and assigning to a key
 that is already present replaces the value in place. A dictionary is therefore
 modelled as the list of its entries in iteration order, and assignment as
 `Put`. This makes the result well defined even when two paths produce the
 same dotted key: the entry written last wins.
 */
module Flatten {

  /** A value that is either a dictionary with string keys or anything else. */
  datatype Value<L> = Leaf(leaf: L) | Dict(items: seq<(string, Value<L>)>)

  /** The keys of an entry list. */
  function Keys<V>(d: seq<(string, V)>): (ks: set<string>)
    ensures forall i :: 0 <= i < |d| ==> d[i].0 in ks
    decreases |d|
  {
    if |d| == 0 then {} else {d[0].0} + Keys(d[1..])
  }

  /** Every key belongs to some entry. */
  lemma {:induction false} KeyHasEntry<V>(d: seq<(string, V)>, k: string)
    requires k in Keys(d)
    ensures exists i :: 0 <= i < |d| && d[i].0 == k
    decreases |d|
  {
    if d[0].0 != k {
      KeyHasEntry(d[1..], k);
      var i :| 0 <= i < |d[1..]| && d[1..][i].0 == k;
      assert d[i + 1].0 == k;
    }
  }

  /** No key occurs twice: the shape of every real dictionary. */
  predicate DistinctKeys<V>(d: seq<(string, V)>) {
    forall i, j :: 0 <= i < j < |d| ==> d[i].0 != d[j].0
  }

  /** No value is itself a dictionary. */
  predicate IsFlat<L>(d: seq<(string, Value<L>)>) {
    forall i :: 0 <= i < |d| ==> d[i].1.Leaf?
  }

  /** The position of the first entry with key `k`. */
  function Find<V>(d: seq<(string, V)>, k: string): (j: nat)
    requires k in Keys(d)
    ensures j < |d| && d[j].0 == k
    ensures forall i :: 0 <= i < j ==> d[i].0 != k
    decreases |d|
  {
    if d[0].0 == k then 0 else 1 + Find(d[1..], k)
  }

  /** Python's `d[k]`: the value stored under `k`. */
  function Lookup<V>(d: seq<(string, V)>, k: string): V
    requires k in Keys(d)
  {
    d[Find(d, k)].1
  }

  /** Python's `d[k] = v`: overwrite the value of an existing key where it
      stands, or append a new entry at the end. */
  function Put<V>(d: seq<(string, V)>, k: string, v: V): (r: seq<(string, V)>)
    ensures Keys(r) == Keys(d) + {k}
    ensures k !in Keys(d) ==> r == d + [(k, v)]
    ensures forall i :: 0 <= i < |r| ==> r[i] == (k, v) || r[i] in d
    decreases |d|
  {
    if |d| == 0 then [(k, v)]
    else if d[0].0 == k then [(k, v)] + d[1..]
    else [d[0]] + Put(d[1..], k, v)
  }

  /** Assigning to a key that is present replaces its first entry in place. */
  lemma {:induction false} PutInPlace<V>(d: seq<(string, V)>, k: string, v: V)
    requires k in Keys(d)
    ensures Put(d, k, v) == d[Find(d, k) := (k, v)]
    decreases |d|
  {
    if d[0].0 != k {
      PutInPlace(d[1..], k, v);
      assert Put(d, k, v) == [d[0]] + d[1..][Find(d[1..], k) := (k, v)];
    }
  }

  /** After `d[k] = v`, looking up `k` gives `v` and every other key keeps its
      value. */
  lemma {:induction false} PutLookup<V>(d: seq<(string, V)>, k: string, v: V, j: string)
    requires j == k || j in Keys(d)
    ensures Lookup(Put(d, k, v), j) == if j == k then v else Lookup(d, j)
    decreases |d|
  {
    if |d| > 0 && d[0].0 != k && d[0].0 != j {
      PutLookup(d[1..], k, v, j);
    }
  }

  /** Assignment keeps the keys of a dictionary distinct. */
  lemma {:induction false} PutKeepsDistinct<V>(d: seq<(string, V)>, k: string, v: V)
    requires DistinctKeys(d)
    ensures DistinctKeys(Put(d, k, v))
    decreases |d|
  {
    if |d| > 0 && d[0].0 != k {
      var tail := Put(d[1..], k, v);
      PutKeepsDistinct(d[1..], k, v);
      forall j | 0 <= j < |tail| ensures tail[j].0 != d[0].0 {
        if tail[j] != (k, v) {
          var i :| 0 <= i < |d[1..]| && d[1..][i] == tail[j];
          assert d[i + 1] == tail[j];
        }
      }
      assert Put(d, k, v) == [d[0]] + tail;
    }
  }

  /** Assigns each entry of `flat`, in order, under its key prefixed by
      `prefix` and a dot. */
  function PutAll<V>(res: seq<(string, V)>, prefix: string, flat: seq<(string, V)>): seq<(string, V)>
    decreases |flat|
  {
    if |flat| == 0 then res
    else PutAll(Put(res, prefix + "." + flat[0].0, flat[0].1), prefix, flat[1..])
  }

  /** The loop of `flatten` over entries whose nested dictionaries are already
      flattened: a nested dictionary's entries are assigned under dotted keys,
      any other value under its own key. */
  function Assemble<L>(res: seq<(string, Value<L>)>, entries: seq<(string, Value<L>)>): seq<(string, Value<L>)>
    decreases |entries|
  {
    if |entries| == 0 then res
    else
      var key := entries[0].0;
      var val := entries[0].1;
      var next := if val.Dict? then PutAll(res, key, val.items) else Put(res, key, val);
      Assemble(next, entries[1..])
  }

  /** The entries of a dictionary with every value flattened. */
  function Prepare<L>(v: Value<L>): seq<(string, Value<L>)>
    requires v.Dict?
    decreases v, 0
  {
    seq(|v.items|, i requires 0 <= i < |v.items| => (v.items[i].0, Flatten(v.items[i].1)))
  }

  /** `flatten`: a value that is not a dictionary is returned as it is; a
      dictionary becomes a flat dictionary with distinct keys. */
  function Flatten<L>(v: Value<L>): (r: Value<L>)
    ensures v.Leaf? ==> r == v
    ensures v.Dict? ==> r.Dict? && IsFlat(r.items) && DistinctKeys(r.items)
    decreases v, 1
  {
    match v
    case Leaf(_) => v
    case Dict(items) =>
      var entries := Prepare(v);
      AssembleFlat([], entries);
      Dict(Assemble([], entries))
  }

  // ---------------------------------------------------------------------------
  // Flatness
  // ---------------------------------------------------------------------------

  lemma {:induction false} PutAllFlat<L>(res: seq<(string, Value<L>)>, prefix: string, flat: seq<(string, Value<L>)>)
    requires IsFlat(res) && DistinctKeys(res) && IsFlat(flat)
    ensures IsFlat(PutAll(res, prefix, flat)) && DistinctKeys(PutAll(res, prefix, flat))
    decreases |flat|
  {
    if |flat| > 0 {
      var next := Put(res, prefix + "." + flat[0].0, flat[0].1);
      PutKeepsDistinct(res, prefix + "." + flat[0].0, flat[0].1);
      assert IsFlat(next);
      PutAllFlat(next, prefix, flat[1..]);
    }
  }

  /** Assembling keeps the result flat, provided every nested dictionary among
      the entries is flat already. */
  lemma {:induction false} AssembleFlat<L>(res: seq<(string, Value<L>)>, entries: seq<(string, Value<L>)>)
    requires IsFlat(res) && DistinctKeys(res)
    requires forall i :: 0 <= i < |entries| && entries[i].1.Dict? ==> IsFlat(entries[i].1.items)
    ensures IsFlat(Assemble(res, entries)) && DistinctKeys(Assemble(res, entries))
    decreases |entries|
  {
    if |entries| > 0 {
      var key := entries[0].0;
      var val := entries[0].1;
      if val.Dict? {
        PutAllFlat(res, key, val.items);
        AssembleFlat(PutAll(res, key, val.items), entries[1..]);
      } else {
        var next := Put(res, key, val);
        PutKeepsDistinct(res, key, val);
        assert IsFlat(next);
        AssembleFlat(next, entries[1..]);
      }
    }
  }

  // ---------------------------------------------------------------------------
  // Identity on flat dictionaries and idempotence
  // ---------------------------------------------------------------------------

  /** Leaf entries with fresh, distinct keys are simply appended. */
  lemma AssembleAppends<L>(res: seq<(string, Value<L>)>, entries: seq<(string, Value<L>)>)
    requires IsFlat(entries) && DistinctKeys(entries)
    requires Keys(res) !! Keys(entries)
    ensures Assemble(res, entries) == res + entries
  {
    AssembleLeaves(res, entries);
    PutEachFresh(res, entries);
  }

  /** `Prepare` leaves the entries of a flat dictionary as they are. */
  lemma PrepareFlat<L>(items: seq<(string, Value<L>)>)
    requires IsFlat(items)
    ensures Prepare(Dict(items)) == items
  {
  }

  /** A dictionary that is already flat is returned unchanged. */
  lemma FlattenFlat<L>(items: seq<(string, Value<L>)>)
    requires IsFlat(items) && DistinctKeys(items)
    ensures Flatten(Dict(items)) == Dict(items)
  {
    PrepareFlat(items);
    AssembleAppends([], items);
    assert [] + items == items;
  }

  /** Flattening twice gives the same as flattening once. */
  lemma FlattenIdempotent<L>(v: Value<L>)
    ensures Flatten(Flatten(v)) == Flatten(v)
  {
    if v.Dict? {
      FlattenFlat(Flatten(v).items);
    }
  }

  // ---------------------------------------------------------------------------
  // Which keys the result has
  // ---------------------------------------------------------------------------

  /** The keys `prefix + "." + k` for `k` in `ks`. */
  function Dotted(prefix: string, ks: set<string>): set<string> {
    set k | k in ks :: prefix + "." + k
  }

  /** The keys the entries of a dictionary contribute once flattened: its own key
      for a value that is not a dictionary, and the dotted keys of the flattened
      value for a nested dictionary. */
  function ExpectedKeys<L>(items: seq<(string, Value<L>)>): set<string>
    decreases |items|
  {
    if |items| == 0 then {}
    else
      var key := items[0].0;
      var val := items[0].1;
      (if val.Dict? then Dotted(key, Keys(Flatten(val).items)) else {key}) + ExpectedKeys(items[1..])
  }

  lemma {:induction false} PutAllKeys<V>(res: seq<(string, V)>, prefix: string, flat: seq<(string, V)>)
    ensures Keys(PutAll(res, prefix, flat)) == Keys(res) + Dotted(prefix, Keys(flat))
    decreases |flat|
  {
    if |flat| > 0 {
      var k := prefix + "." + flat[0].0;
      PutAllKeys(Put(res, k, flat[0].1), prefix, flat[1..]);
      assert Dotted(prefix, Keys(flat)) == {k} + Dotted(prefix, Keys(flat[1..]));
    }
  }

  lemma {:induction false} AssembleKeys<L>(res: seq<(string, Value<L>)>, items: seq<(string, Value<L>)>)
    ensures Keys(Assemble(res, Prepare(Dict(items)))) == Keys(res) + ExpectedKeys(items)
    decreases |items|
  {
    var entries := Prepare(Dict(items));
    if |items| > 0 {
      var key := items[0].0;
      var val := Flatten(items[0].1);
      assert entries[0] == (key, val);
      assert entries[1..] == Prepare(Dict(items[1..]));
      var next := if val.Dict? then PutAll(res, key, val.items) else Put(res, key, val);
      if val.Dict? {
        PutAllKeys(res, key, val.items);
      }
      AssembleKeys(next, items[1..]);
    }
  }

  /** The keys of a flattened dictionary are exactly the keys its entries
      contribute: collisions merge entries but lose no key. */
  lemma FlattenKeys<L>(items: seq<(string, Value<L>)>)
    ensures Keys(Flatten(Dict(items)).items) == ExpectedKeys(items)
  {
    AssembleKeys([], items);
  }

  // ---------------------------------------------------------------------------
  // Which value each key holds
  // ---------------------------------------------------------------------------

  /** The assignments `d[k] = v` of the entries of `es`, one after another. */
  function PutEach<V>(res: seq<(string, V)>, es: seq<(string, V)>): (r: seq<(string, V)>)
    ensures Keys(r) == Keys(res) + Keys(es)
    ensures forall i :: 0 <= i < |r| ==> r[i] in res || r[i] in es
    decreases |es|
  {
    if |es| == 0 then res
    else PutEach(Put(res, es[0].0, es[0].1), es[1..])
  }

  /** The value of the last entry of `es` with key `k`. */
  function LastValue<V>(es: seq<(string, V)>, k: string): V
    requires k in Keys(es)
    decreases |es|
  {
    if k in Keys(es[1..]) then LastValue(es[1..], k) else es[0].1
  }

  /** The entries of `flat` with `prefix` and a dot put in front of every key. */
  function Prefixed<V>(prefix: string, flat: seq<(string, V)>): seq<(string, V)> {
    seq(|flat|, i requires 0 <= i < |flat| => (prefix + "." + flat[i].0, flat[i].1))
  }

  /** What one entry of a dictionary contributes to its flattening: itself for a
      value that is not a dictionary, the dotted entries of the flattened value
      for a nested dictionary. */
  function Part<L>(key: string, val: Value<L>): seq<(string, Value<L>)> {
    if val.Dict? then Prefixed(key, Flatten(val).items) else [(key, val)]
  }

  /** The contributions of all entries, in entry order. */
  function Contrib<L>(items: seq<(string, Value<L>)>): seq<(string, Value<L>)>
    decreases |items|
  {
    if |items| == 0 then [] else Part(items[0].0, items[0].1) + Contrib(items[1..])
  }

  lemma {:induction false} PutEachAppend<V>(res: seq<(string, V)>, xs: seq<(string, V)>, ys: seq<(string, V)>)
    ensures PutEach(res, xs + ys) == PutEach(PutEach(res, xs), ys)
    decreases |xs|
  {
    if |xs| > 0 {
      assert (xs + ys)[0] == xs[0];
      assert (xs + ys)[1..] == xs[1..] + ys;
      PutEachAppend(Put(res, xs[0].0, xs[0].1), xs[1..], ys);
    } else {
      assert xs + ys == ys;
    }
  }

  lemma {:induction false} PutAllIsPutEach<V>(res: seq<(string, V)>, prefix: string, flat: seq<(string, V)>)
    ensures PutAll(res, prefix, flat) == PutEach(res, Prefixed(prefix, flat))
    decreases |flat|
  {
    var p := Prefixed(prefix, flat);
    if |flat| > 0 {
      assert p[0] == (prefix + "." + flat[0].0, flat[0].1);
      assert p[1..] == Prefixed(prefix, flat[1..]);
      PutAllIsPutEach(Put(res, prefix + "." + flat[0].0, flat[0].1), prefix, flat[1..]);
    }
  }

  lemma {:induction false} AssembleIsPutEach<L>(res: seq<(string, Value<L>)>, items: seq<(string, Value<L>)>)
    ensures Assemble(res, Prepare(Dict(items))) == PutEach(res, Contrib(items))
    decreases |items|
  {
    var entries := Prepare(Dict(items));
    if |items| > 0 {
      var key := items[0].0;
      var val := items[0].1;
      var fv := Flatten(val);
      assert entries[0] == (key, fv);
      assert entries[1..] == Prepare(Dict(items[1..]));
      var next := if fv.Dict? then PutAll(res, key, fv.items) else Put(res, key, fv);
      assert Assemble(res, entries) == Assemble(next, entries[1..]);
      if val.Dict? {
        PutAllIsPutEach(res, key, fv.items);
      } else {
        assert PutEach(res, Part(key, val)) == PutEach(Put(res, key, val), []);
      }
      assert PutEach(res, Part(key, val)) == next;
      PutEachAppend(res, Part(key, val), Contrib(items[1..]));
      AssembleIsPutEach(next, items[1..]);
    }
  }

  /** `flatten` performs the assignments the entries contribute, in entry order:
      the loop is the same as assigning `Contrib(items)` one by one. */
  lemma FlattenAssigns<L>(items: seq<(string, Value<L>)>)
    ensures Flatten(Dict(items)).items == PutEach([], Contrib(items))
  {
    AssembleIsPutEach([], items);
  }

  /** Every entry of the result is one that some entry contributes, and the
      result has exactly the contributed keys. */
  lemma FlattenEntries<L>(items: seq<(string, Value<L>)>)
    ensures Keys(Flatten(Dict(items)).items) == Keys(Contrib(items))
    ensures forall i :: 0 <= i < |Flatten(Dict(items)).items| ==> Flatten(Dict(items)).items[i] in Contrib(items)
  {
    FlattenAssigns(items);
  }

  lemma {:induction false} PutEachLookup<V>(res: seq<(string, V)>, es: seq<(string, V)>, k: string)
    requires k in Keys(res) + Keys(es)
    ensures Lookup(PutEach(res, es), k) == if k in Keys(es) then LastValue(es, k) else Lookup(res, k)
    decreases |es|
  {
    if |es| > 0 {
      var next := Put(res, es[0].0, es[0].1);
      PutEachLookup(next, es[1..], k);
      if k !in Keys(es[1..]) {
        PutLookup(res, es[0].0, es[0].1, k);
      }
    }
  }

  /** Each key of the result holds the value of the last contribution with that
      key: a later assignment overwrites an earlier one. */
  lemma FlattenValues<L>(items: seq<(string, Value<L>)>, k: string)
    requires k in Keys(Contrib(items))
    ensures k in Keys(Flatten(Dict(items)).items)
    ensures Lookup(Flatten(Dict(items)).items, k) == LastValue(Contrib(items), k)
  {
    FlattenAssigns(items);
    PutEachLookup([], Contrib(items), k);
  }

  /** In a dictionary with distinct keys, the first key does not occur again. */
  lemma HeadFresh<V>(es: seq<(string, V)>)
    requires |es| > 0 && DistinctKeys(es)
    ensures es[0].0 !in Keys(es[1..]) && DistinctKeys(es[1..])
  {
    if es[0].0 in Keys(es[1..]) {
      KeyHasEntry(es[1..], es[0].0);
      assert false;
    }
  }

  /** Assigning entries with distinct keys that are all new appends them. */
  lemma {:induction false} PutEachFresh<V>(res: seq<(string, V)>, es: seq<(string, V)>)
    requires DistinctKeys(es)
    requires Keys(res) !! Keys(es)
    ensures PutEach(res, es) == res + es
    decreases |es|
  {
    if |es| > 0 {
      HeadFresh(es);
      var next := Put(res, es[0].0, es[0].1);
      PutEachFresh(next, es[1..]);
      assert res + es == next + es[1..];
    } else {
      assert res + es == res;
    }
  }

  /** On entries that are not dictionaries, the loop of `flatten` is plain
      assignment. */
  lemma {:induction false} AssembleLeaves<L>(res: seq<(string, Value<L>)>, es: seq<(string, Value<L>)>)
    requires IsFlat(es)
    ensures Assemble(res, es) == PutEach(res, es)
    decreases |es|
  {
    if |es| > 0 {
      AssembleLeaves(Put(res, es[0].0, es[0].1), es[1..]);
    }
  }

  /** When no two contributions share a key, the result is exactly the
      contributions, in order. */
  lemma FlattenDistinct<L>(items: seq<(string, Value<L>)>)
    requires DistinctKeys(Contrib(items))
    ensures Flatten(Dict(items)).items == Contrib(items)
  {
    FlattenAssigns(items);
    PutEachFresh([], Contrib(items));
    assert [] + Contrib(items) == Contrib(items);
  }

  // ---------------------------------------------------------------------------
  // Empty nested dictionaries
  // ---------------------------------------------------------------------------

  lemma {:induction false} AssembleAppend<L>(res: seq<(string, Value<L>)>, xs: seq<(string, Value<L>)>, ys: seq<(string, Value<L>)>)
    ensures Assemble(res, xs + ys) == Assemble(Assemble(res, xs), ys)
    decreases |xs|
  {
    if |xs| > 0 {
      assert (xs + ys)[0] == xs[0];
      assert (xs + ys)[1..] == xs[1..] + ys;
      var next := if xs[0].1.Dict? then PutAll(res, xs[0].0, xs[0].1.items) else Put(res, xs[0].0, xs[0].1);
      AssembleAppend(next, xs[1..], ys);
    } else {
      assert xs + ys == ys;
    }
  }

  /** A key whose value is an empty dictionary contributes no entries. */
  lemma FlattenDropsEmpty<L>(xs: seq<(string, Value<L>)>, k: string, ys: seq<(string, Value<L>)>)
    ensures Flatten(Dict(xs + [(k, Dict([]))] + ys)) == Flatten(Dict(xs + ys))
  {
    var e: Value<L> := Dict([]);
    assert Prepare(e) == [];
    assert Flatten(e) == Dict([]);
    var px, py := Prepare(Dict(xs)), Prepare(Dict(ys));
    assert Prepare(Dict(xs + [(k, e)] + ys)) == px + [(k, e)] + py;
    assert Prepare(Dict(xs + ys)) == px + py;
    AssembleAppend([], px + [(k, e)], py);
    AssembleAppend([], px, [(k, e)]);
    AssembleAppend([], px, py);
  }

  // ---------------------------------------------------------------------------
  // Examples
  // ---------------------------------------------------------------------------

  /** The example of the documentation comment. */
  lemma FlattenExample()
    ensures Flatten(Dict([("a", Dict([("b", Leaf(0)), ("c", Leaf(1))]))]))
         == Dict([("a.b", Leaf(0)), ("a.c", Leaf(1))])
  {
    var inner: Value<int> := Dict([("b", Leaf(0)), ("c", Leaf(1))]);
    FlattenFlat(inner.items);
    assert Prepare(Dict([("a", inner)])) == [("a", inner)];
    assert "a" + "." + "b" == "a.b";
    assert "a" + "." + "c" == "a.c";
  }

  /** Dotted keys can collide: `{"a.b": 1, "a": {"b": 2}}` flattens to the single
      entry `"a.b": 2`, the later assignment overwriting the earlier one. */
  lemma FlattenCollision()
    ensures Flatten(Dict([("a.b", Leaf(1)), ("a", Dict([("b", Leaf(2))]))]))
         == Dict([("a.b", Leaf(2))])
  {
  }
}
