/** src/common/LruCache.h: the least-recently-used cache. A recency list of nodes and an
    index from keys to nodes implement a plain sequence of entries, most recent first. */
module LruCache {
  import opened Strings

  // --------------------------------------------------------------- the specification

  predicate HasKey<K(==), V>(s: seq<(K, V)>, k: K) {
    exists i :: 0 <= i < |s| && s[i].0 == k
  }

  function Lookup<K(==), V>(s: seq<(K, V)>, k: K): Option<V> {
    if s == [] then None else if s[0].0 == k then Some(s[0].1) else Lookup(s[1..], k)
  }

  function Without<K(==), V>(s: seq<(K, V)>, k: K): seq<(K, V)> {
    if s == [] then [] else if s[0].0 == k then Without(s[1..], k) else [s[0]] + Without(s[1..], k)
  }

  function DropLast<T>(s: seq<T>): seq<T>
    requires s != []
  {
    s[..|s| - 1]
  }

  /** `put`: refresh an existing key, or evict the last entry of a full cache first. */
  function PutEntry<K(==), V>(s: seq<(K, V)>, k: K, v: V, capacity: nat): seq<(K, V)> {
    if Lookup(s, k).Some? then [(k, v)] + Without(s, k)
    else [(k, v)] + if |s| >= capacity && s != [] then DropLast(s) else s
  }

  /** `get`: a hit moves the entry to the front. */
  function Touch<K(==), V>(s: seq<(K, V)>, k: K): seq<(K, V)> {
    match Lookup(s, k)
    case None => s
    case Some(v) => [(k, v)] + Without(s, k)
  }

  ghost predicate Distinct<K, V>(s: seq<(K, V)>) {
    forall i, j :: 0 <= i < j < |s| ==> s[i].0 != s[j].0
  }

  lemma {:induction false} LookupAt<K, V>(s: seq<(K, V)>, i: nat)
    requires Distinct(s) && i < |s|
    ensures Lookup(s, s[i].0) == Some(s[i].1)
    ensures Without(s, s[i].0) == s[..i] + s[i + 1..]
  {
    var k := s[i].0;
    if i == 0 {
      WithoutAbsent(s[1..], k);
    } else {
      assert s[1..][i - 1] == s[i];
      LookupAt(s[1..], i - 1);
      assert [s[0]] + (s[1..][..i - 1] + s[1..][i..]) == s[..i] + s[i + 1..];
    }
  }

  lemma {:induction false} WithoutAbsent<K, V>(s: seq<(K, V)>, k: K)
    requires forall i :: 0 <= i < |s| ==> s[i].0 != k
    ensures Without(s, k) == s && Lookup(s, k) == None
  {
    if s != [] { WithoutAbsent(s[1..], k); }
  }

  // ------------------------------------------------------------------ the structure

  class Node<K, V> {
    const key: K
    var value: V

    constructor (key: K, value: V)
      ensures this.key == key && this.value == value
    {
      this.key, this.value := key, value;
    }
  }

  /** The entries a list of nodes holds. */
  ghost function Pairs<K, V>(l: seq<Node<K, V>>): (r: seq<(K, V)>)
    reads l
    ensures |r| == |l|
  {
    if l == [] then [] else [(l[0].key, l[0].value)] + Pairs(l[1..])
  }

  lemma {:induction false} PairsAt<K, V>(l: seq<Node<K, V>>)
    ensures forall i :: 0 <= i < |l| ==> Pairs(l)[i] == (l[i].key, l[i].value)
  {
    if l != [] { PairsAt(l[1..]); }
  }

  /** List and index refer to the same nodes, one for each key. */
  ghost predicate Linked<K(!new), V(!new)>(l: seq<Node<K, V>>, index: map<K, Node<K, V>>) {
    && (forall i :: 0 <= i < |l| ==> l[i].key in index && index[l[i].key] == l[i])
    && (forall k :: k in index ==> index[k] in l && index[k].key == k)
    && (forall i, j :: 0 <= i < j < |l| ==> l[i] != l[j])
  }

  /** `list_.erase` at the node's position. */
  function Erased<T(==)>(s: seq<T>, x: T): seq<T> {
    if s == [] then [] else if s[0] == x then s[1..] else [s[0]] + Erased(s[1..], x)
  }

  lemma {:induction false} ErasedAt<T>(s: seq<T>, i: nat)
    requires i < |s| && forall j, k :: 0 <= j < k < |s| ==> s[j] != s[k]
    ensures Erased(s, s[i]) == s[..i] + s[i + 1..]
  {
    if i > 0 {
      ErasedAt(s[1..], i - 1);
      assert [s[0]] + (s[1..][..i - 1] + s[1..][i..]) == s[..i] + s[i + 1..];
    }
  }

  lemma PairsDistinct<K(!new), V(!new)>(l: seq<Node<K, V>>, index: map<K, Node<K, V>>)
    requires Linked(l, index)
    ensures Distinct(Pairs(l))
  {
    PairsAt(l);
  }

  lemma PairsMissing<K(!new), V(!new)>(l: seq<Node<K, V>>, index: map<K, Node<K, V>>, k: K)
    requires Linked(l, index) && k !in index
    ensures Lookup(Pairs(l), k) == None && Without(Pairs(l), k) == Pairs(l)
  {
    PairsAt(l);
    WithoutAbsent(Pairs(l), k);
  }

  lemma {:induction false} PairsSplit<K, V>(l: seq<Node<K, V>>, i: nat)
    requires i < |l|
    ensures Pairs(l[..i] + l[i + 1..]) == Pairs(l)[..i] + Pairs(l)[i + 1..]
    ensures Pairs(l[..i]) == Pairs(l)[..i]
  {
    if i == 0 {
      assert l[..0] + l[1..] == l[1..];
      assert Pairs(l)[1..] == Pairs(l[1..]);
    } else {
      PairsSplit(l[1..], i - 1);
      assert l[1..][..i - 1] + l[1..][i..] == (l[..i] + l[i + 1..])[1..];
      assert l[1..][..i - 1] == l[..i][1..];
      var p, rest := (l[0].key, l[0].value), Pairs(l[1..]);
      assert Pairs(l) == [p] + rest;
      assert ([p] + rest)[..i] == [p] + rest[..i - 1] && ([p] + rest)[i + 1..] == rest[i..];
    }
  }

  lemma NodePlace<K(!new), V(!new)>(l: seq<Node<K, V>>, index: map<K, Node<K, V>>, k: K) returns (i: nat)
    requires Linked(l, index) && k in index
    ensures i < |l| && l[i] == index[k] && l[i].key == k
    ensures Erased(l, l[i]) == l[..i] + l[i + 1..] && l[i] !in Erased(l, l[i])
  {
    i :| 0 <= i < |l| && l[i] == index[k];
    ErasedAt(l, i);
  }

  /** The node the index gives for a key, and its place in the list. */
  lemma PairsFound<K(!new), V(!new)>(l: seq<Node<K, V>>, index: map<K, Node<K, V>>, k: K) returns (i: nat)
    requires Linked(l, index) && k in index
    ensures i < |l| && l[i] == index[k] && l[i].key == k
    ensures Lookup(Pairs(l), k) == Some(l[i].value)
    ensures Without(Pairs(l), k) == Pairs(Erased(l, l[i]))
    ensures Erased(l, l[i]) == l[..i] + l[i + 1..] && l[i] !in Erased(l, l[i])
  {
    i := NodePlace(l, index, k);
    PairsAt(l);
    PairsDistinct(l, index);
    hide Linked, Distinct, Lookup, Without, Erased;
    LookupAt(Pairs(l), i);
    PairsSplit(l, i);
  }

  lemma LinkedToFront<K(!new), V(!new)>(l: seq<Node<K, V>>, index: map<K, Node<K, V>>, i: nat)
    requires Linked(l, index) && i < |l|
    ensures Linked([l[i]] + (l[..i] + l[i + 1..]), index)
  {
    var l' := [l[i]] + (l[..i] + l[i + 1..]);
    forall k | k in index ensures index[k] in l' {
      var j :| 0 <= j < |l| && l[j] == index[k];
      assert if j == i then l'[0] == l[j] else if j < i then l'[j + 1] == l[j] else l'[j] == l[j];
    }
  }

  lemma LinkedErase<K(!new), V(!new)>(l: seq<Node<K, V>>, index: map<K, Node<K, V>>, i: nat)
    requires Linked(l, index) && i < |l|
    ensures Linked(l[..i] + l[i + 1..], index - {l[i].key})
  {
    var l' := l[..i] + l[i + 1..];
    forall k | k in index && k != l[i].key ensures index[k] in l' {
      var j :| 0 <= j < |l| && l[j] == index[k];
      assert if j < i then l'[j] == l[j] else l'[j - 1] == l[j];
    }
  }

  lemma LinkedCons<K(!new), V(!new)>(l: seq<Node<K, V>>, index: map<K, Node<K, V>>, node: Node<K, V>)
    requires Linked(l, index) && node.key !in index
    ensures Linked([node] + l, index[node.key := node])
  {
    var l' := [node] + l;
    forall k | k in index ensures index[k] in l' {
      var j :| 0 <= j < |l| && l[j] == index[k];
      assert l'[j + 1] == l[j];
    }
  }

  class LruCache<K(==, !new), V(!new)> {
    var list: seq<Node<K, V>>
    var index: map<K, Node<K, V>>
    const capacity: nat

    ghost predicate Valid()
      reads this
    {
      1 <= capacity && |list| <= capacity && Linked(list, index)
    }

    /** The entries, most recently used first. */
    ghost function Entries(): (r: seq<(K, V)>)
      reads this, list
    {
      Pairs(list)
    }

    constructor (capacity: nat)
      ensures Valid() && Entries() == [] && list == []
      ensures this.capacity == if capacity > 0 then capacity else 1
    {
      this.capacity := if capacity > 0 then capacity else 1;
      list, index := [], map[];
    }

    method Put(key: K, value: V)
      requires Valid()
      modifies this, list
      ensures Valid() && forall n :: n in list ==> n in old(list) || fresh(n)
      ensures Entries() == PutEntry(old(Entries()), key, value, capacity)
    {
      hide Linked, Without, Lookup, Pairs;
      if key in index {
        Refresh(key, value);
      } else {
        PairsMissing(list, index, key);
        if |list| >= capacity {
          EvictLast();
        }
        InsertFront(key, value);
      }
    }

    /** The branch of `put` for a key already present. */
    method Refresh(key: K, value: V)
      requires Valid() && key in index
      modifies this`list, list
      ensures Valid() && forall n :: n in list ==> n in old(list)
      ensures Lookup(old(Entries()), key).Some?
      ensures Entries() == [(key, value)] + Without(old(Entries()), key)
    {
      hide Linked, Without, Lookup, Erased;
      var node := index[key];
      ghost var i := PairsFound(list, index, key);
      LinkedToFront(list, index, i);
      node.value := value;
      list := [node] + Erased(list, node);
    }

    /** The branch of `put` for a new key. */
    method InsertFront(key: K, value: V)
      requires 1 <= capacity && |list| < capacity && Linked(list, index) && key !in index
      modifies this
      ensures Valid() && forall n :: n in list ==> n in old(list) || fresh(n)
      ensures Entries() == [(key, value)] + old(Entries())
    {
      hide Linked;
      var node := new Node(key, value);
      LinkedCons(list, index, node);
      list := [node] + list;
      index := index[key := node];
    }

    /** Drops the least recently used entry. */
    method EvictLast()
      requires Valid() && list != []
      modifies this
      ensures Valid() && |list| < capacity && list <= old(list) && index.Keys <= old(index).Keys
      ensures Entries() == DropLast(old(Entries()))
    {
      hide Linked, Pairs;
      var n := |list| - 1;
      LinkedErase(list, index, n);
      PairsSplit(list, n);
      index := index - {list[n].key};
      assert list[..n] + list[n + 1..] == list[..n];
      list := list[..n];
    }

    method Get(key: K) returns (r: Option<V>)
      requires Valid()
      modifies this`list
      ensures Valid() && forall n :: n in list ==> n in old(list)
      ensures r == Lookup(old(Entries()), key) && Entries() == Touch(old(Entries()), key)
    {
      hide Linked, Without, Lookup;
      if key !in index {
        PairsMissing(list, index, key);
        return None;
      }
      var node := index[key];
      ghost var i := PairsFound(list, index, key);
      LinkedToFront(list, index, i);
      list := [node] + Erased(list, node);
      r := Some(node.value);
    }

    method Exists(key: K) returns (r: bool)
      requires Valid()
      ensures r == Lookup(Entries(), key).Some?
    {
      r := key in index;
      if r {
        ghost var i := PairsFound(list, index, key);
      } else {
        PairsMissing(list, index, key);
      }
    }

    method Remove(key: K) returns (r: bool)
      requires Valid()
      modifies this
      ensures Valid() && forall n :: n in list ==> n in old(list)
      ensures r == Lookup(old(Entries()), key).Some? && Entries() == Without(old(Entries()), key)
    {
      hide Linked, Without, Lookup;
      if key !in index {
        PairsMissing(list, index, key);
        return false;
      }
      var node := index[key];
      ghost var i := PairsFound(list, index, key);
      LinkedErase(list, index, i);
      list := Erased(list, node);
      index := index - {key};
      r := true;
    }

    method Clear()
      requires Valid()
      modifies this
      ensures Valid() && Entries() == []
    {
      list, index := [], map[];
    }

    method Size() returns (n: nat)
      requires Valid()
      ensures n == |Entries()| <= capacity
    {
      n := |list|;
    }
  }
}
