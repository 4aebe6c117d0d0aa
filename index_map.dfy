/** The insertion-ordered hash map the builders use (the `indexmap` crate),
    reduced to the operations src/internals/types/extended.rs calls: an
    entry list without repeated keys, kept in insertion order. */
module IndexMaps {
  import opened Wrappers

  datatype IndexMap<K(==), V> = IndexMap(entries: seq<(K, V)>)
  {
    /** No key occurs twice. */
    predicate Valid()
    {
      forall j, l :: 0 <= j < l < |entries| ==> entries[j].0 != entries[l].0
    }

    function Len(): (n: nat)
      ensures n == |entries|
    {
      |entries|
    }

    /** `keys()`, in insertion order. */
    function Keys(): (ks: seq<K>)
      ensures |ks| == |entries|
      ensures forall j :: 0 <= j < |entries| ==> ks[j] == entries[j].0
    {
      seq(|entries|, j requires 0 <= j < |entries| => entries[j].0)
    }

    /** `contains_key`. */
    function ContainsKey(k: K): (b: bool)
      ensures b <==> exists j :: 0 <= j < |entries| && entries[j].0 == k
    {
      exists j :: 0 <= j < |entries| && entries[j].0 == k
    }

    /** The position of `k`: the first (for a valid map, the only) entry
        carrying it. */
    function IndexOf(k: K): (r: Option<nat>)
      ensures r.None? <==> !ContainsKey(k)
      ensures r.Some? ==> r.value < |entries| && entries[r.value].0 == k
      ensures r.Some? ==> forall j :: 0 <= j < r.value ==> entries[j].0 != k
      decreases |entries|
    {
      if entries == [] then None
      else if entries[0].0 == k then Some(0)
      else match IndexMap(entries[1..]).IndexOf(k)
        case None => None
        case Some(j) => Some(j + 1)
    }

    /** `get_full`: the position and the value stored under `k`. */
    function GetFull(k: K): (r: Option<(nat, V)>)
      ensures r.None? <==> !ContainsKey(k)
      ensures r.Some? ==> r.value.0 < |entries| && entries[r.value.0] == (k, r.value.1)
    {
      match IndexOf(k)
      case None => None
      case Some(j) => Some((j, entries[j].1))
    }

    /** `insert`: a new key goes to the end; an existing key keeps its
        position and gets the new value. */
    function Insert(k: K, v: V): (m: IndexMap<K, V>)
      ensures !ContainsKey(k) ==> m.entries == entries + [(k, v)]
      ensures ContainsKey(k) ==> m.entries == entries[IndexOf(k).value := (k, v)]
    {
      match IndexOf(k)
      case None => IndexMap(entries + [(k, v)])
      case Some(j) => IndexMap(entries[j := (k, v)])
    }
  }

  function Empty<K(==), V>(): (m: IndexMap<K, V>)
    ensures m.Valid() && m.Len() == 0
  {
    IndexMap([])
  }

  /** `insert` keeps keys distinct and leaves every other key where it was. */
  lemma InsertValid<K, V>(m: IndexMap<K, V>, k: K, v: V)
    requires m.Valid()
    ensures m.Insert(k, v).Valid()
    ensures m.Insert(k, v).ContainsKey(k)
    ensures forall k' :: k' != k ==> m.Insert(k, v).IndexOf(k') == m.IndexOf(k')
    ensures m.Insert(k, v).GetFull(k).value.1 == v
  {
    var n := m.Insert(k, v);
    if !m.ContainsKey(k) {
      InsertNewValid(m, k, v);
    } else {
      InsertExistingValid(m, k, v);
    }
    IndexOfUnique(n, k);
  }

  /** The case of `InsertValid` where `k` is new: it is appended. */
  lemma InsertNewValid<K, V>(m: IndexMap<K, V>, k: K, v: V)
    requires m.Valid() && !m.ContainsKey(k)
    ensures m.Insert(k, v).Valid()
    ensures m.Insert(k, v).entries[|m.entries|] == (k, v)
    ensures forall k' :: k' != k ==> m.Insert(k, v).IndexOf(k') == m.IndexOf(k')
  {
    var n := m.Insert(k, v);
    assert n.entries == m.entries + [(k, v)];
    forall k' | k' != k
      ensures n.IndexOf(k') == m.IndexOf(k')
    {
      IndexOfUnique(n, k');
      IndexOfUnique(m, k');
    }
  }

  /** The case of `InsertValid` where `k` is present: its entry is
      overwritten in place. */
  lemma InsertExistingValid<K, V>(m: IndexMap<K, V>, k: K, v: V)
    requires m.Valid() && m.ContainsKey(k)
    ensures m.Insert(k, v).Valid()
    ensures m.Insert(k, v).entries[m.IndexOf(k).value] == (k, v)
    ensures forall k' :: k' != k ==> m.Insert(k, v).IndexOf(k') == m.IndexOf(k')
  {
    var n := m.Insert(k, v);
    var j := m.IndexOf(k).value;
    assert n.entries == m.entries[j := (k, v)];
    forall k' | k' != k
      ensures n.IndexOf(k') == m.IndexOf(k')
    {
      IndexOfUnique(n, k');
      IndexOfUnique(m, k');
    }
  }

  /** In a valid map the position of a key is the one entry carrying it. */
  lemma IndexOfUnique<K, V>(m: IndexMap<K, V>, k: K)
    requires m.Valid()
    ensures forall j :: 0 <= j < |m.entries| && m.entries[j].0 == k ==> m.IndexOf(k) == Some(j)
  {
  }
}
