/** The APPID-indexed container: a direct-mapped index over an append-only list of entries. */
module AppIdContainer {
  import opened Bytes

  const NO_INDEX: nat := 0xFFFF_FFFF_FFFF_FFFF

  /** Position of the newest entry with this APPID: what a linear scan from the end would find. */
  function Newest<K, V>(values: seq<(K, V)>, appid: K -> u16, a: u16): (r: Option<nat>)
    ensures r.Some? ==> r.value < |values| && appid(values[r.value].0) == a
    ensures r.Some? ==> forall i :: r.value < i < |values| ==> appid(values[i].0) != a
    ensures r.None? ==> forall i :: 0 <= i < |values| ==> appid(values[i].0) != a
  {
    if values == [] then None
    else if appid(values[|values| - 1].0) == a then Some(|values| - 1)
    else Newest(values[..|values| - 1], appid, a)
  }

  /** find() as a scan: the newest entry with the key's APPID, if its key is equal. */
  function Scan<K(==), V>(values: seq<(K, V)>, appid: K -> u16, key: K): (r: Option<nat>)
    ensures r.Some? ==> r.value < |values| && values[r.value].0 == key
  {
    var i := Newest(values, appid, appid(key));
    if i.Some? && values[i.value].0 == key then i else None
  }

  class Container<K(==), V(0)> {
    const appid: K -> u16
    const register: array<nat>
    var values: seq<(K, V)>

    ghost predicate Valid()
      reads this, register
    {
      && register.Length == U16
      && |values| < NO_INDEX
      && forall a: u16 :: register[a] == var n := Newest(values, appid, a); if n.Some? then n.value else NO_INDEX
    }

    constructor (appid: K -> u16)
      ensures Valid() && values == [] && this.appid == appid && fresh(register)
    {
      this.appid := appid;
      register := new nat[U16](_ => NO_INDEX);
      values := [];
    }

    method Find(key: K) returns (r: Option<nat>)
      requires Valid()
      ensures r == Scan(values, appid, key)
    {
      var idx := register[appid(key)];
      if idx < |values| && values[idx].0 == key {
        return Some(idx);
      }
      return None;
    }

    method Insert(key: K, value: V)
      requires Valid() && |values| + 1 < NO_INDEX
      modifies this, register
      ensures Valid() && values == old(values) + [(key, value)]
    {
      register[appid(key)] := |values|;
      ghost var before := values;
      values := values + [(key, value)];
      assert values[..|values| - 1] == before;
    }

    /** operator[] followed by an assignment through the reference it returns. */
    method Put(key: K, default: V, value: V)
      requires Valid() && |values| + 1 < NO_INDEX
      modifies this, register
      ensures Valid()
      ensures var n := Newest(old(values), appid, appid(key));
              values == if n.None? then old(values) + [(key, value)]
                        else old(values)[n.value := (old(values)[n.value].0, value)]
    {
      var idx := register[appid(key)];
      if idx >= |values| {
        Insert(key, default);
        idx := register[appid(key)];
      }
      ghost var before := values;
      values := values[idx := (values[idx].0, value)];
      forall a: u16 ensures Newest(values, appid, a) == Newest(before, appid, a) {
        SameKeys(before, values, appid, a);
      }
    }
  }

  lemma {:induction false} SameKeys<K, V>(s: seq<(K, V)>, t: seq<(K, V)>, appid: K -> u16, a: u16)
    requires |s| == |t| && forall i :: 0 <= i < |s| ==> s[i].0 == t[i].0
    ensures Newest(s, appid, a) == Newest(t, appid, a)
  {
    if s != [] {
      SameKeys(s[..|s| - 1], t[..|t| - 1], appid, a);
    }
  }

  /** No two entries share an APPID. */
  ghost predicate DistinctIds<K, V>(values: seq<(K, V)>, appid: K -> u16)
  {
    forall i, j :: 0 <= i < j < |values| ==> appid(values[i].0) != appid(values[j].0)
  }

  /** The content as a map. */
  function Content<K(==), V>(values: seq<(K, V)>): (m: map<K, V>)
  {
    if values == [] then map[] else Content(values[..|values| - 1])[values[|values| - 1].0 := values[|values| - 1].1]
  }

  /** What one assignment does to the list. */
  function AfterPut<K(==), V>(values: seq<(K, V)>, appid: K -> u16, key: K, value: V): (r: seq<(K, V)>)
  {
    var n := Newest(values, appid, appid(key));
    if n.None? then values + [(key, value)] else values[n.value := (values[n.value].0, value)]
  }

  /**
   An assignment is found again under its key exactly when the key's APPID was free or belonged to
   that same key; otherwise it overwrites the value of another key and the lookup misses.
   */
  lemma PutThenFind<K, V>(values: seq<(K, V)>, appid: K -> u16, key: K, value: V)
    ensures var n, after := Newest(values, appid, appid(key)), AfterPut(values, appid, key, value);
            var found := Scan(after, appid, key);
            && (found.Some? <==> n.None? || values[n.value].0 == key)
            && (found.Some? ==> after[found.value] == (key, value))
  {
    var n, after := Newest(values, appid, appid(key)), AfterPut(values, appid, key, value);
    if n.Some? {
      SameKeys(values, after, appid, appid(key));
    }
  }

  lemma {:induction false} ContentKeys<K, V>(values: seq<(K, V)>, key: K)
    ensures key in Content(values) <==> exists i :: 0 <= i < |values| && values[i].0 == key
  {
    if values != [] {
      var init := values[..|values| - 1];
      ContentKeys(init, key);
      if key in Content(init) {
        var i :| 0 <= i < |init| && init[i].0 == key;
        assert values[i].0 == key;
      }
      if exists i :: 0 <= i < |values| && values[i].0 == key {
        var i :| 0 <= i < |values| && values[i].0 == key;
        if i < |init| {
          assert init[i].0 == key;
        }
      }
    }
  }

  lemma {:induction false} ContentAt<K, V>(values: seq<(K, V)>, appid: K -> u16, i: nat)
    requires DistinctIds(values, appid) && i < |values|
    ensures values[i].0 in Content(values) && Content(values)[values[i].0] == values[i].1
  {
    var init := values[..|values| - 1];
    if i < |init| {
      ContentAt(init, appid, i);
      assert values[i].0 != values[|values| - 1].0;
    }
  }

  /**
   As long as distinct keys have distinct APPIDs the container is a finite map: an assignment keeps
   the APPIDs distinct and updates the map at that key only.
   */
  lemma PutIsMapUpdate<K, V>(values: seq<(K, V)>, appid: K -> u16, key: K, value: V)
    requires DistinctIds(values, appid)
    requires forall i :: 0 <= i < |values| && appid(values[i].0) == appid(key) ==> values[i].0 == key
    ensures var after := AfterPut(values, appid, key, value);
            DistinctIds(after, appid) && Content(after) == Content(values)[key := value]
  {
    var n := Newest(values, appid, appid(key));
    if n.None? {
      PushEntry(values, appid, key, value);
    } else {
      hide Content;
      KeepIds(values, appid, n.value, value);
      ContentUpdate(values, appid, n.value, value);
    }
  }

  lemma PushEntry<K, V>(values: seq<(K, V)>, appid: K -> u16, key: K, value: V)
    requires DistinctIds(values, appid) && forall i :: 0 <= i < |values| ==> appid(values[i].0) != appid(key)
    ensures DistinctIds(values + [(key, value)], appid)
    ensures Content(values + [(key, value)]) == Content(values)[key := value]
  {
    var after := values + [(key, value)];
    assert after[..|values|] == values;
    assert forall i :: 0 <= i < |values| ==> after[i] == values[i];
  }

  lemma KeepIds<K, V>(values: seq<(K, V)>, appid: K -> u16, i: nat, value: V)
    requires DistinctIds(values, appid) && i < |values|
    ensures DistinctIds(values[i := (values[i].0, value)], appid)
  {
    var after := values[i := (values[i].0, value)];
    assert forall k :: 0 <= k < |values| ==> after[k].0 == values[k].0;
  }

  lemma {:induction false} ContentUpdate<K, V>(values: seq<(K, V)>, appid: K -> u16, i: nat, value: V)
    requires DistinctIds(values, appid) && i < |values|
    ensures Content(values[i := (values[i].0, value)]) == Content(values)[values[i].0 := value]
  {
    var k, after := values[i].0, values[i := (values[i].0, value)];
    var init, last := values[..|values| - 1], values[|values| - 1];
    if i == |init| {
      assert after[..|init|] == init;
    } else {
      ContentUpdate(init, appid, i, value);
      assert after[..|init|] == init[i := (k, value)];
      assert last.0 != k;
    }
  }

  /** And then a lookup is the map lookup. */
  lemma FindIsMapLookup<K, V>(values: seq<(K, V)>, appid: K -> u16, key: K)
    requires DistinctIds(values, appid)
    ensures var found := Scan(values, appid, key);
            && (found.Some? <==> key in Content(values))
            && (found.Some? ==> values[found.value].1 == Content(values)[key])
  {
    ContentKeys(values, key);
    var found := Scan(values, appid, key);
    if found.Some? {
      ContentAt(values, appid, found.value);
    }
    if i :| 0 <= i < |values| && values[i].0 == key {
      assert appid(values[i].0) == appid(key);
    }
  }
}
