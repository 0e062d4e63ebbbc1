/**
  The marker registry of the map view: the object from key string to live marker that
  marker ref callbacks maintain, and the clusterer that is cleared and refilled with the
  registry's markers after every change.

  The registry is kept as a list of entries with distinct keys; `ToMap` is the key-to-marker
  view the callbacks test and update. The order of the list is internal to the model: the
  only thing that leaves the registry is the multiset of its markers (`ValueBag`), which does
  not depend on the order in which JavaScript enumerates the keys.
 */
module MarkerRegistry {
  import opened Wrappers

  datatype Registry<M> = Registry(entries: seq<(string, M)>)

  predicate DistinctKeys<M>(entries: seq<(string, M)>) {
    forall i, j :: 0 <= i < j < |entries| ==> entries[i].0 != entries[j].0
  }

  /** The key-to-marker view of an entry list (later entries win, though keys are distinct). */
  function ToMap<M>(entries: seq<(string, M)>): map<string, M>
    decreases |entries|
  {
    if entries == [] then map[]
    else ToMap(entries[..|entries| - 1])[entries[|entries| - 1].0 := entries[|entries| - 1].1]
  }

  /** The keys of the map view are exactly the keys of the entries. */
  lemma {:induction false} ToMapKeys<M>(entries: seq<(string, M)>)
    ensures forall k :: k in ToMap(entries) <==> exists i :: 0 <= i < |entries| && entries[i].0 == k
    decreases |entries|
  {
    if entries != [] {
      var init := entries[..|entries| - 1];
      ToMapKeys(init);
      assert ToMap(entries) == ToMap(init)[entries[|entries| - 1].0 := entries[|entries| - 1].1];
      forall k | k in ToMap(entries)
        ensures exists i :: 0 <= i < |entries| && entries[i].0 == k
      {
        if k != entries[|entries| - 1].0 {
          var i :| 0 <= i < |init| && init[i].0 == k;
          assert entries[i] == init[i];
        }
      }
      forall k | exists i :: 0 <= i < |entries| && entries[i].0 == k
        ensures k in ToMap(entries)
      {
        var i :| 0 <= i < |entries| && entries[i].0 == k;
        if i < |init| {
          assert init[i] == entries[i];
        }
      }
    }
  }

  /** Entry list with every entry for `key` dropped. */
  function RemoveKey<M>(entries: seq<(string, M)>, key: string): seq<(string, M)>
    decreases |entries|
  {
    if entries == [] then []
    else
      var init := entries[..|entries| - 1];
      var last := entries[|entries| - 1];
      if last.0 == key then RemoveKey(init, key) else RemoveKey(init, key) + [last]
  }

  /** A prefix of an entry list with distinct keys has distinct keys. */
  lemma DistinctKeysPrefix<M>(entries: seq<(string, M)>, n: nat)
    requires DistinctKeys(entries)
    requires n <= |entries|
    ensures DistinctKeys(entries[..n])
  {
    forall i, j | 0 <= i < j < n
      ensures entries[..n][i].0 != entries[..n][j].0
    {
      assert entries[..n][i] == entries[i] && entries[..n][j] == entries[j];
    }
  }

  /** Removing a key keeps exactly the entries with other keys. */
  lemma {:induction false} RemoveKeyKeeps<M>(entries: seq<(string, M)>, key: string)
    ensures forall x :: x in RemoveKey(entries, key) <==> x in entries && x.0 != key
    decreases |entries|
  {
    if entries != [] {
      var init := entries[..|entries| - 1];
      RemoveKeyKeeps(init, key);
      assert entries == init + [entries[|entries| - 1]];
    }
  }

  /** Removing a key removes exactly that key from the map view, and keys stay distinct. */
  lemma {:induction false} RemoveKeyCorrect<M>(entries: seq<(string, M)>, key: string)
    requires DistinctKeys(entries)
    ensures DistinctKeys(RemoveKey(entries, key))
    ensures ToMap(RemoveKey(entries, key)) == ToMap(entries) - {key}
    decreases |entries|
  {
    if entries != [] {
      var init := entries[..|entries| - 1];
      var last := entries[|entries| - 1];
      DistinctKeysPrefix(entries, |entries| - 1);
      RemoveKeyCorrect(init, key);
      assert ToMap(entries) == ToMap(init)[last.0 := last.1];
      var r := RemoveKey(init, key);
      if last.0 == key {
        assert RemoveKey(entries, key) == r;
        assert ToMap(init)[key := last.1] - {key} == ToMap(init) - {key};
      } else {
        assert RemoveKey(entries, key) == r + [last];
        assert last.0 !in ToMap(init) by {
          ToMapKeys(init);
          forall i | 0 <= i < |init|
            ensures init[i].0 != last.0
          {
            assert init[i] == entries[i];
          }
        }
        AppendFresh(r, last);
        assert (ToMap(init) - {key})[last.0 := last.1] == ToMap(init)[last.0 := last.1] - {key};
      }
    }
  }

  /** Appending an entry under a key not yet present keeps keys distinct and adds that key. */
  lemma AppendFresh<M>(r: seq<(string, M)>, last: (string, M))
    requires DistinctKeys(r)
    requires last.0 !in ToMap(r)
    ensures DistinctKeys(r + [last])
    ensures ToMap(r + [last]) == ToMap(r)[last.0 := last.1]
  {
  }

  /** With distinct keys the map view has one key per entry. */
  lemma {:induction false} ToMapSize<M>(entries: seq<(string, M)>)
    requires DistinctKeys(entries)
    ensures |ToMap(entries)| == |entries|
    decreases |entries|
  {
    if entries != [] {
      var init := entries[..|entries| - 1];
      DistinctKeysPrefix(entries, |entries| - 1);
      ToMapSize(init);
      ToMapKeys(init);
      forall i | 0 <= i < |init|
        ensures init[i].0 != entries[|entries| - 1].0
      {
        assert init[i] == entries[i];
      }
      assert entries[|entries| - 1].0 !in ToMap(init);
    }
  }

  /** With distinct keys every entry is found under its own key. */
  lemma {:induction false} ToMapLookup<M>(entries: seq<(string, M)>, i: nat)
    requires DistinctKeys(entries)
    requires i < |entries|
    ensures entries[i].0 in ToMap(entries) && ToMap(entries)[entries[i].0] == entries[i].1
    decreases |entries|
  {
    if i < |entries| - 1 {
      var init := entries[..|entries| - 1];
      DistinctKeysPrefix(entries, |entries| - 1);
      assert init[i] == entries[i];
      ToMapLookup(init, i);
    }
  }

  /** Removing a key no entry carries changes nothing. */
  lemma {:induction false} RemoveAbsentKey<M>(entries: seq<(string, M)>, key: string)
    requires key !in ToMap(entries)
    ensures RemoveKey(entries, key) == entries
    decreases |entries|
  {
    if entries != [] {
      var init := entries[..|entries| - 1];
      var last := entries[|entries| - 1];
      assert ToMap(entries) == ToMap(init)[last.0 := last.1];
      RemoveAbsentKey(init, key);
      assert init + [last] == entries;
    }
  }

  /** The members every plain object `{}` inherits from `Object.prototype`. Reading
      `markers[key]` under one of these names yields a truthy value (a function, or the
      prototype itself) even when the registry has no entry of its own for it. */
  const InheritedKeys: set<string> := {
    "constructor", "hasOwnProperty", "isPrototypeOf", "propertyIsEnumerable",
    "toLocaleString", "toString", "valueOf", "__proto__",
    "__defineGetter__", "__defineSetter__", "__lookupGetter__", "__lookupSetter__"}

  /** Whether the guard's `markers[key]` is truthy: an own entry (a marker object, which is
      always truthy) or an inherited member. */
  predicate Found<M>(reg: Registry<M>, key: string) {
    key in ToMap(reg.entries) || key in InheritedKeys
  }

  /** The ref callback `setMarkerRef(marker, key)`. A marker when `markers[key]` is truthy
      and a null when it is falsy are ignored; otherwise a marker is added under the key or
      a null deletes the key's own entry. The guard and the update read the same registry. */
  function SetMarkerRef<M>(reg: Registry<M>, marker: Option<M>, key: string): (r: Registry<M>)
    requires DistinctKeys(reg.entries)
    ensures DistinctKeys(r.entries)
    ensures (Found(reg, key) <==> marker.Some?) ==> r == reg
    ensures marker.Some? && !Found(reg, key) ==> ToMap(r.entries) == ToMap(reg.entries)[key := marker.value]
    ensures marker.None? ==> ToMap(r.entries) == ToMap(reg.entries) - {key}
  {
    var found := Found(reg, key);
    if marker.Some? && found then reg
    else if marker.None? && !found then
      assert ToMap(reg.entries) - {key} == ToMap(reg.entries);
      reg
    else if marker.Some? then
      AppendFresh(reg.entries, (key, marker.value));
      Registry(reg.entries + [(key, marker.value)])
    else
      RemoveKeyCorrect(reg.entries, key);
      Registry(RemoveKey(reg.entries, key))
  }

  /** A marker for a key that is already registered changes nothing. */
  lemma SetPresentIsNoOp<M>(reg: Registry<M>, marker: M, key: string)
    requires DistinctKeys(reg.entries)
    requires key in ToMap(reg.entries)
    ensures SetMarkerRef(reg, Some(marker), key) == reg
  {
  }

  /** A marker under the name of an inherited member is never registered. */
  lemma SetInheritedKeyIsNoOp<M>(reg: Registry<M>, marker: M, key: string)
    requires DistinctKeys(reg.entries)
    requires key in InheritedKeys
    ensures SetMarkerRef(reg, Some(marker), key) == reg
  {
  }

  /** A null for a key with no entry of its own changes nothing, inherited name or not. */
  lemma ClearAbsentIsNoOp<M>(reg: Registry<M>, key: string)
    requires DistinctKeys(reg.entries)
    requires key !in ToMap(reg.entries)
    ensures SetMarkerRef(reg, None, key) == reg
  {
    RemoveAbsentKey(reg.entries, key);
  }

  /** A marker for a new key (not an inherited member's name) adds that key and leaves every
      other entry as it was. */
  lemma SetNewKeyAddsOnlyIt<M>(reg: Registry<M>, marker: M, key: string)
    requires DistinctKeys(reg.entries)
    requires key !in ToMap(reg.entries) && key !in InheritedKeys
    ensures var m := ToMap(SetMarkerRef(reg, Some(marker), key).entries);
      && key in m && m[key] == marker
      && (forall k :: k != key ==> (k in m <==> k in ToMap(reg.entries)))
      && (forall k :: k != key && k in m ==> m[k] == ToMap(reg.entries)[k])
  {
  }

  /** A null for a registered key removes that key and leaves every other entry as it was. */
  lemma ClearPresentRemovesOnlyIt<M>(reg: Registry<M>, key: string)
    requires DistinctKeys(reg.entries)
    requires key in ToMap(reg.entries)
    ensures var m := ToMap(SetMarkerRef(reg, None, key).entries);
      && key !in m
      && |m| == |ToMap(reg.entries)| - 1
      && (forall k :: k != key ==> (k in m <==> k in ToMap(reg.entries)))
      && (forall k :: k in m ==> m[k] == ToMap(reg.entries)[k])
  {
  }

  /** The registered markers with multiplicity: what `Object.values(markers)` lists, in
      whichever order JavaScript enumerates the keys. */
  function ValueBag<M>(entries: seq<(string, M)>): multiset<M>
    decreases |entries|
  {
    if entries == [] then multiset{}
    else ValueBag(entries[..|entries| - 1]) + multiset{entries[|entries| - 1].1}
  }

  /** The keys under which a marker is registered. */
  ghost function KeysHolding<M>(m: map<string, M>, x: M): set<string> {
    set k | k in m && m[k] == x
  }

  /** The last entry's key is not among the earlier ones. */
  lemma LastKeyFresh<M>(entries: seq<(string, M)>)
    requires DistinctKeys(entries)
    requires entries != []
    ensures entries[|entries| - 1].0 !in ToMap(entries[..|entries| - 1])
  {
    var init := entries[..|entries| - 1];
    ToMapKeys(init);
    forall i | 0 <= i < |init|
      ensures init[i].0 != entries[|entries| - 1].0
    {
      assert init[i] == entries[i];
    }
  }

  /** Each marker occurs in the bag as often as there are keys registered to it. */
  lemma {:induction false} ValueBagCounts<M>(entries: seq<(string, M)>, x: M)
    requires DistinctKeys(entries)
    ensures ValueBag(entries)[x] == |KeysHolding(ToMap(entries), x)|
    decreases |entries|
  {
    if entries != [] {
      var init := entries[..|entries| - 1];
      var last := entries[|entries| - 1];
      DistinctKeysPrefix(entries, |entries| - 1);
      LastKeyFresh(entries);
      ValueBagCounts(init, x);
      var before := KeysHolding(ToMap(init), x);
      var after := KeysHolding(ToMap(entries), x);
      assert ToMap(entries) == ToMap(init)[last.0 := last.1];
      assert last.0 !in before;
      if last.1 == x {
        assert after == before + {last.0};
      } else {
        assert after == before;
      }
    }
  }

  /** The bag holds one marker per entry. */
  lemma {:induction false} ValueBagSize<M>(entries: seq<(string, M)>)
    ensures |ValueBag(entries)| == |entries|
    decreases |entries|
  {
    if entries != [] {
      ValueBagSize(entries[..|entries| - 1]);
    }
  }

  /** The clusterer, seen only as the collection of markers it holds. */
  datatype Clusterer<M> = Clusterer(markers: multiset<M>)

  function ClearMarkers<M>(c: Clusterer<M>): Clusterer<M> {
    Clusterer(multiset{})
  }

  function AddMarkers<M>(c: Clusterer<M>, ms: multiset<M>): Clusterer<M> {
    Clusterer(c.markers + ms)
  }

  /** The effect run after every registry change: with a clusterer, clear it and add
      the registry's markers; before the map exists there is no clusterer and nothing happens. */
  function Sync<M>(c: Option<Clusterer<M>>, reg: Registry<M>): (r: Option<Clusterer<M>>)
    ensures r.Some? <==> c.Some?
  {
    match c
    case None => None
    case Some(cl) => Some(AddMarkers(ClearMarkers(cl), ValueBag(reg.entries)))
  }

  /** After a sync the clusterer's collection equals the registry's values as a multiset:
      each marker is held once per key registered to it, and it holds one marker per key. */
  lemma SyncHoldsRegistry<M>(c: Clusterer<M>, reg: Registry<M>, x: M)
    requires DistinctKeys(reg.entries)
    ensures var r := Sync(Some(c), reg);
      && r.Some?
      && r.value.markers[x] == |KeysHolding(ToMap(reg.entries), x)|
      && |r.value.markers| == |ToMap(reg.entries)|
  {
    ValueBagCounts(reg.entries, x);
    ValueBagSize(reg.entries);
    ToMapSize(reg.entries);
  }

  /** After a sync the clusterer holds a marker exactly when it is registered under some key. */
  lemma SyncHeldIffRegistered<M>(c: Clusterer<M>, reg: Registry<M>, x: M)
    requires DistinctKeys(reg.entries)
    ensures x in Sync(Some(c), reg).value.markers <==> x in ToMap(reg.entries).Values
  {
    SyncHoldsRegistry(c, reg, x);
    var m := ToMap(reg.entries);
    if x in m.Values {
      var k :| k in m && m[k] == x;
      assert k in KeysHolding(m, x);
    } else {
      assert KeysHolding(m, x) == {};
    }
  }

  /** Syncing again without a registry change gives the same clusterer contents. */
  lemma SyncIdempotent<M>(c: Option<Clusterer<M>>, reg: Registry<M>)
    ensures Sync(Sync(c, reg), reg) == Sync(c, reg)
  {
  }

  /** A ref callback invocation: the marker (or null) and the key string. */
  datatype RefCall<M> = RefCall(marker: Option<M>, key: string)

  /** The registry after a sequence of ref callbacks, each seeing the previous one's result. */
  function ApplyRefs<M>(reg: Registry<M>, calls: seq<RefCall<M>>): (r: Registry<M>)
    requires DistinctKeys(reg.entries)
    ensures DistinctKeys(r.entries)
    decreases |calls|
  {
    if calls == [] then reg
    else ApplyRefs(SetMarkerRef(reg, calls[0].marker, calls[0].key), calls[1..])
  }

  /** Mounting one marker per key, in the given order. */
  function MountCalls<M>(keys: seq<string>, markers: seq<M>): (r: seq<RefCall<M>>)
    requires |keys| == |markers|
    ensures |r| == |keys|
    ensures forall i :: 0 <= i < |r| ==> r[i] == RefCall(Some(markers[i]), keys[i])
  {
    seq(|keys|, i requires 0 <= i < |keys| => RefCall(Some(markers[i]), keys[i]))
  }

  function Zip<M>(keys: seq<string>, markers: seq<M>): (r: seq<(string, M)>)
    requires |keys| == |markers|
    ensures |r| == |keys|
    ensures forall i :: 0 <= i < |r| ==> r[i] == (keys[i], markers[i])
  {
    seq(|keys|, i requires 0 <= i < |keys| => (keys[i], markers[i]))
  }

  /** Mounting under distinct fresh keys extends the model's entry list by those entries. */
  lemma {:induction false} MountEntries<M>(reg: Registry<M>, keys: seq<string>, markers: seq<M>)
    requires DistinctKeys(reg.entries)
    requires |keys| == |markers|
    requires forall i, j :: 0 <= i < j < |keys| ==> keys[i] != keys[j]
    requires forall i :: 0 <= i < |keys| ==> keys[i] !in ToMap(reg.entries) && keys[i] !in InheritedKeys
    ensures ApplyRefs(reg, MountCalls(keys, markers)) == Registry(reg.entries + Zip(keys, markers))
    decreases |keys|
  {
    if keys != [] {
      var next := SetMarkerRef(reg, Some(markers[0]), keys[0]);
      assert next == Registry(reg.entries + [(keys[0], markers[0])]);
      assert MountCalls(keys, markers)[1..] == MountCalls(keys[1..], markers[1..]);
      MountEntries(next, keys[1..], markers[1..]);
      assert reg.entries + [(keys[0], markers[0])] + Zip(keys[1..], markers[1..])
          == reg.entries + Zip(keys, markers);
    }
  }

  /** The bag of a concatenation is the sum of the bags. */
  lemma {:induction false} ValueBagAppend<M>(a: seq<(string, M)>, b: seq<(string, M)>)
    ensures ValueBag(a + b) == ValueBag(a) + ValueBag(b)
    decreases |b|
  {
    if b != [] {
      var b' := b[..|b| - 1];
      assert (a + b)[..|a + b| - 1] == a + b';
      ValueBagAppend(a, b');
    } else {
      assert a + b == a;
    }
  }

  /** The bag of zipped entries is the multiset of the markers. */
  lemma {:induction false} ValueBagZip<M>(keys: seq<string>, markers: seq<M>)
    requires |keys| == |markers|
    ensures ValueBag(Zip(keys, markers)) == multiset(markers)
    decreases |keys|
  {
    if keys != [] {
      var n := |keys| - 1;
      assert Zip(keys, markers)[..n] == Zip(keys[..n], markers[..n]);
      ValueBagZip(keys[..n], markers[..n]);
      assert markers == markers[..n] + [markers[n]];
    }
  }

  /** Mounting markers under distinct fresh keys (no inherited member's name among them)
      registers each marker under its key, keeps every earlier entry, adds no other key,
      and adds exactly those markers to the registry's values. */
  lemma MountAppends<M>(reg: Registry<M>, keys: seq<string>, markers: seq<M>)
    requires DistinctKeys(reg.entries)
    requires |keys| == |markers|
    requires forall i, j :: 0 <= i < j < |keys| ==> keys[i] != keys[j]
    requires forall i :: 0 <= i < |keys| ==> keys[i] !in ToMap(reg.entries) && keys[i] !in InheritedKeys
    ensures var m := ToMap(ApplyRefs(reg, MountCalls(keys, markers)).entries);
      && ValueBag(ApplyRefs(reg, MountCalls(keys, markers)).entries) == ValueBag(reg.entries) + multiset(markers)
      && (forall k :: k in m <==> k in ToMap(reg.entries) || k in keys)
      && (forall i :: 0 <= i < |keys| ==> keys[i] in m && m[keys[i]] == markers[i])
      && (forall k :: k in ToMap(reg.entries) ==> k in m && m[k] == ToMap(reg.entries)[k])
  {
    var r := ApplyRefs(reg, MountCalls(keys, markers));
    MountEntries(reg, keys, markers);
    var z := Zip(keys, markers);
    ValueBagAppend(reg.entries, z);
    ValueBagZip(keys, markers);
    AppendedMapKeys(reg.entries, keys, markers, r.entries);
    AppendedMapValues(reg.entries, keys, markers, r.entries);
  }

  /** The keys of an entry list extended by zipped entries are the old keys and the new ones. */
  lemma AppendedMapKeys<M>(a: seq<(string, M)>, keys: seq<string>, markers: seq<M>, e: seq<(string, M)>)
    requires |keys| == |markers|
    requires e == a + Zip(keys, markers)
    ensures forall k :: k in ToMap(e) <==> k in ToMap(a) || k in keys
  {
    ToMapKeys(e);
    ToMapKeys(a);
    forall k | k in ToMap(e)
      ensures k in ToMap(a) || k in keys
    {
      var i :| 0 <= i < |e| && e[i].0 == k;
      if i >= |a| {
        assert keys[i - |a|] == k;
      } else {
        assert a[i].0 == k;
      }
    }
    forall k | k in keys
      ensures k in ToMap(e)
    {
      var i :| 0 <= i < |keys| && keys[i] == k;
      assert e[|a| + i].0 == k;
    }
    forall k | k in ToMap(a)
      ensures k in ToMap(e)
    {
      var i :| 0 <= i < |a| && a[i].0 == k;
      assert e[i].0 == k;
    }
  }

  /** In an entry list extended by zipped entries, with distinct keys, each new key holds its
      marker and each old key keeps its marker. */
  lemma AppendedMapValues<M>(a: seq<(string, M)>, keys: seq<string>, markers: seq<M>, e: seq<(string, M)>)
    requires |keys| == |markers|
    requires DistinctKeys(a) && DistinctKeys(e)
    requires e == a + Zip(keys, markers)
    ensures forall i :: 0 <= i < |keys| ==> keys[i] in ToMap(e) && ToMap(e)[keys[i]] == markers[i]
    ensures forall k :: k in ToMap(a) ==> k in ToMap(e) && ToMap(e)[k] == ToMap(a)[k]
  {
    forall i | 0 <= i < |keys|
      ensures keys[i] in ToMap(e) && ToMap(e)[keys[i]] == markers[i]
    {
      assert e[|a| + i] == (keys[i], markers[i]);
      ToMapLookup(e, |a| + i);
    }
    ToMapKeys(a);
    forall k | k in ToMap(a)
      ensures k in ToMap(e) && ToMap(e)[k] == ToMap(a)[k]
    {
      var j :| 0 <= j < |a| && a[j].0 == k;
      assert e[j] == a[j];
      ToMapLookup(a, j);
      ToMapLookup(e, j);
    }
  }

  /** Unmounting every registered marker, one null per key of the registry. */
  function UnmountCalls<M>(reg: Registry<M>): (r: seq<RefCall<M>>)
    ensures |r| == |reg.entries|
    ensures forall i :: 0 <= i < |r| ==> r[i] == RefCall(None, reg.entries[i].0)
  {
    seq(|reg.entries|, i requires 0 <= i < |reg.entries| => RefCall(None, reg.entries[i].0))
  }

  /** Unmounting every registered marker empties the registry. */
  lemma {:induction false} UnmountEmpties<M>(reg: Registry<M>)
    requires DistinctKeys(reg.entries)
    ensures ApplyRefs(reg, UnmountCalls(reg)) == Registry([])
    decreases |reg.entries|
  {
    if reg.entries != [] {
      var key := reg.entries[0].0;
      assert RemoveKey(reg.entries, key) == reg.entries[1..] by {
        RemoveFirstKey(reg.entries);
      }
      var rest := Registry(reg.entries[1..]);
      ToMapKeys(reg.entries);
      assert key in ToMap(reg.entries);
      assert SetMarkerRef(reg, None, key) == rest;
      assert UnmountCalls(reg)[1..] == UnmountCalls(rest);
      UnmountEmpties(rest);
    }
  }

  /** With distinct keys, removing the first entry's key drops just that entry. */
  lemma {:induction false} RemoveFirstKey<M>(entries: seq<(string, M)>)
    requires DistinctKeys(entries)
    requires entries != []
    ensures RemoveKey(entries, entries[0].0) == entries[1..]
    decreases |entries|
  {
    if |entries| > 1 {
      var init := entries[..|entries| - 1];
      var last := entries[|entries| - 1];
      RemoveFirstKey(init);
      assert init[1..] + [last] == entries[1..];
    }
  }
}
