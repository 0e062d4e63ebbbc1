/**
  The map view fed by the pager: one marker per record of the visible window, keyed by
  the record's id string, registered through the ref callback and handed to the clusterer.
 */
module MapView {
  import opened Wrappers
  import opened Decimal
  import opened Detonations
  import opened Pager
  import opened MarkerRegistry
  import opened Selection

  /** The key strings of the visible records, in display order. */
  function MarkerKeys(visible: seq<Detonation>): (ks: seq<string>)
    ensures |ks| == |visible|
    ensures forall i :: 0 <= i < |ks| ==> ks[i] == IdKey(visible[i])
  {
    seq(|visible|, i requires 0 <= i < |visible| => IdKey(visible[i]))
  }

  /** A record's key string starts with a digit or a minus sign, so it never names a
      member inherited from `Object.prototype`, and the registry guard only sees own entries. */
  lemma IdKeyNotInherited(d: Detonation)
    ensures IdKey(d) !in InheritedKeys
  {
    var k := IdKey(d);
    assert k[0] == '-' || IsDigit(k[0]);
    forall w | w in InheritedKeys
      ensures w != k
    {
      assert !IsDigit(w[0]) && w[0] != '-';
    }
  }

  /** Records with distinct ids have distinct key strings. */
  lemma DistinctMarkerKeys(visible: seq<Detonation>)
    requires DistinctIds(visible)
    ensures forall i, j :: 0 <= i < j < |visible| ==> MarkerKeys(visible)[i] != MarkerKeys(visible)[j]
  {
  }

  /** Mounting a marker for each of a list of records with distinct ids into an empty
      registry registers each record's marker under its key string and nothing else, and the
      following sync leaves the clusterer holding exactly those markers. */
  lemma MountRecords<M>(visible: seq<Detonation>, markers: seq<M>, c: Clusterer<M>)
    requires |markers| == |visible|
    requires DistinctIds(visible)
    ensures var reg := ApplyRefs(Registry([]), MountCalls(MarkerKeys(visible), markers));
      && (forall k :: k in ToMap(reg.entries) <==> exists d :: d in visible && IdKey(d) == k)
      && (forall i :: 0 <= i < |visible| ==> IdKey(visible[i]) in ToMap(reg.entries) && ToMap(reg.entries)[IdKey(visible[i])] == markers[i])
      && Sync(Some(c), reg) == Some(Clusterer(multiset(markers)))
  {
    var ks := MarkerKeys(visible);
    DistinctMarkerKeys(visible);
    forall i | 0 <= i < |ks|
      ensures ks[i] !in InheritedKeys
    {
      IdKeyNotInherited(visible[i]);
    }
    MountAppends(Registry([]), ks, markers);
    var reg := ApplyRefs(Registry([]), MountCalls(ks, markers));
    assert ValueBag<M>([]) == multiset{};
    assert ValueBag(reg.entries) == multiset(markers);
    KeysAreVisibleKeys(visible, ToMap(reg.entries));
  }

  /** A key set holding exactly the key strings of the records, stated per record. */
  lemma KeysAreVisibleKeys<M>(visible: seq<Detonation>, m: map<string, M>)
    requires forall k :: k in m <==> k in MarkerKeys(visible)
    ensures forall k :: k in m <==> exists d :: d in visible && IdKey(d) == k
  {
    var ks := MarkerKeys(visible);
    forall k
      ensures k in m <==> exists d :: d in visible && IdKey(d) == k
    {
      if k in ks {
        var i :| 0 <= i < |ks| && ks[i] == k;
        assert visible[i] in visible;
      }
      if exists d :: d in visible && IdKey(d) == k {
        var d :| d in visible && IdKey(d) == k;
        var i :| 0 <= i < |visible| && visible[i] == d;
        assert ks[i] == k;
      }
    }
  }

  /** The map is given the pager's window: mounting its markers registers exactly the
      window's key strings, the window's i-th record (record `p*s + i`) under marker `i`,
      and the clusterer then holds exactly those markers. */
  lemma MountVisibleSlice<M>(records: seq<Detonation>, p: nat, s: PageSize, markers: seq<M>, c: Clusterer<M>)
    requires |markers| == |VisibleSlice(records, p, s)|
    requires DistinctIds(VisibleSlice(records, p, s))
    ensures var visible := VisibleSlice(records, p, s);
      var reg := ApplyRefs(Registry([]), MountCalls(MarkerKeys(visible), markers));
      && (forall k :: k in ToMap(reg.entries) <==> exists d :: d in visible && IdKey(d) == k)
      && (forall i :: 0 <= i < |visible| ==> IdKey(visible[i]) in ToMap(reg.entries) && ToMap(reg.entries)[IdKey(visible[i])] == markers[i])
      && Sync(Some(c), reg) == Some(Clusterer(multiset(markers)))
  {
    MountRecords(VisibleSlice(records, p, s), markers, c);
  }
}
