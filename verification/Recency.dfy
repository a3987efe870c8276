/** What the cache of src/common/LruCache.h promises over whole traces of operations, stated
    about its specification: recency order, eviction, last value, and inclusion. */
module Recency {
  import opened Strings
  import opened LruCache

  // ------------------------------------------------------------- single operations

  lemma {:induction false} LookupHas<K, V>(s: seq<(K, V)>, k: K)
    ensures Lookup(s, k).Some? <==> HasKey(s, k)
    ensures Lookup(s, k).Some? ==> (k, Lookup(s, k).value) in s
  {
    if s != [] {
      LookupHas(s[1..], k);
      if HasKey(s, k) && s[0].0 != k {
        var i :| 0 <= i < |s| && s[i].0 == k;
        assert s[1..][i - 1].0 == k;
      }
      if HasKey(s[1..], k) {
        var i :| 0 <= i < |s[1..]| && s[1..][i].0 == k;
        assert s[i + 1].0 == k;
      }
    }
  }

  lemma {:induction false} WithoutMeaning<K, V>(s: seq<(K, V)>, k: K)
    requires Distinct(s)
    ensures var r := Without(s, k);
            && Distinct(r) && !HasKey(r, k)
            && |r| == |s| - (if HasKey(s, k) then 1 else 0)
            && forall j :: j != k ==> Lookup(r, j) == Lookup(s, j)
  {
    LookupHas(s, k);
    if HasKey(s, k) {
      var i :| 0 <= i < |s| && s[i].0 == k;
      LookupAt(s, i);
      var r := s[..i] + s[i + 1..];
      forall j | j != k ensures Lookup(r, j) == Lookup(s, j) { LookupSkips(s, i, j); }
    } else {
      WithoutAbsent(s, k);
    }
  }

  lemma {:induction false} LookupSkips<K, V>(s: seq<(K, V)>, i: nat, j: K)
    requires i < |s| && s[i].0 != j
    ensures Lookup(s[..i] + s[i + 1..], j) == Lookup(s, j)
  {
    if i == 0 {
      assert s[..0] + s[1..] == s[1..];
    } else {
      LookupSkips(s[1..], i - 1, j);
      var r := s[..i] + s[i + 1..];
      assert r[0] == s[0] && r[1..] == s[1..][..i - 1] + s[1..][i..];
    }
  }

  lemma DropLastLookup<K, V>(s: seq<(K, V)>, j: K)
    requires Distinct(s) && s != []
    ensures Lookup(DropLast(s), j) == if j == s[|s| - 1].0 then None else Lookup(s, j)
  {
    var n := |s| - 1;
    LookupAt(s, n);
    assert s[..n] + s[n + 1..] == DropLast(s);
    if j == s[n].0 { WithoutAbsent(DropLast(s), j); } else { LookupSkips(s, n, j); }
  }

  /** `put`: the new value is found at the front, and only the last entry of a full cache
      without the key is lost. */
  lemma PutMeaning<K, V>(s: seq<(K, V)>, k: K, v: V, capacity: nat)
    requires Distinct(s) && 1 <= capacity && |s| <= capacity
    ensures var r := PutEntry(s, k, v, capacity);
            var full := !HasKey(s, k) && |s| == capacity;
            && Distinct(r) && |r| <= capacity
            && Lookup(r, k) == Some(v) && r[0] == (k, v)
            && forall j :: j != k ==> Lookup(r, j) == if full && j == s[|s| - 1].0 then None else Lookup(s, j)
  {
    LookupHas(s, k);
    WithoutMeaning(s, k);
    if !HasKey(s, k) && |s| == capacity {
      forall j | j != k ensures Lookup(DropLast(s), j) == if j == s[|s| - 1].0 then None else Lookup(s, j) {
        DropLastLookup(s, j);
      }
    }
  }

  /** `get` changes no answer. */
  lemma TouchMeaning<K, V>(s: seq<(K, V)>, k: K)
    requires Distinct(s)
    ensures var r := Touch(s, k);
            && Distinct(r) && |r| == |s|
            && (HasKey(s, k) ==> r[0].0 == k)
            && forall j :: Lookup(r, j) == Lookup(s, j)
  {
    LookupHas(s, k);
    WithoutMeaning(s, k);
  }

  // ------------------------------------------------------------------------ traces

  /** `Read` is the read-through of the file service: get, then put on a miss. */
  datatype Op<K, V> = PutOp(key: K, value: V) | GetOp(key: K) | ReadOp(key: K, value: V) | RemoveOp(key: K) | ClearOp

  function Apply<K(==), V>(s: seq<(K, V)>, op: Op<K, V>, capacity: nat): seq<(K, V)> {
    match op
    case PutOp(k, v) => PutEntry(s, k, v, capacity)
    case GetOp(k) => Touch(s, k)
    case ReadOp(k, v) => if Lookup(s, k).Some? then Touch(s, k) else PutEntry(s, k, v, capacity)
    case RemoveOp(k) => Without(s, k)
    case ClearOp => []
  }

  function Cache<K(==), V>(trace: seq<Op<K, V>>, capacity: nat): seq<(K, V)> {
    if trace == [] then [] else Apply(Cache(trace[..|trace| - 1], capacity), trace[|trace| - 1], capacity)
  }

  lemma ApplyKeeps<K, V>(s: seq<(K, V)>, op: Op<K, V>, capacity: nat)
    requires Distinct(s) && |s| <= capacity && 1 <= capacity
    ensures Distinct(Apply(s, op, capacity)) && |Apply(s, op, capacity)| <= capacity
  {
    match op
    case PutOp(k, v) => PutMeaning(s, k, v, capacity);
    case GetOp(k) => TouchMeaning(s, k);
    case ReadOp(k, v) => TouchMeaning(s, k); PutMeaning(s, k, v, capacity);
    case RemoveOp(k) => WithoutMeaning(s, k);
    case ClearOp =>
  }

  lemma {:induction false} CacheBounded<K, V>(trace: seq<Op<K, V>>, capacity: nat)
    requires 1 <= capacity
    ensures Distinct(Cache(trace, capacity)) && |Cache(trace, capacity)| <= capacity
    decreases |trace|
  {
    if trace != [] {
      CacheBounded(trace[..|trace| - 1], capacity);
      ApplyKeeps(Cache(trace[..|trace| - 1], capacity), trace[|trace| - 1], capacity);
    }
  }

  // ---------------------------------------------------------------- recency order

  predicate Touches<K(==), V>(op: Op<K, V>, k: K) {
    (op.PutOp? || op.GetOp? || op.ReadOp?) && op.key == k
  }

  /** The last operation that named a key for use, by its place in the trace. */
  function LastTouch<K(==), V>(trace: seq<Op<K, V>>, k: K): int {
    if trace == [] then -1
    else if Touches(trace[|trace| - 1], k) then |trace| - 1
    else LastTouch(trace[..|trace| - 1], k)
  }

  ghost predicate ByRecency<K, V>(s: seq<(K, V)>, trace: seq<Op<K, V>>) {
    forall i, j :: 0 <= i < j < |s| ==> LastTouch(trace, s[i].0) > LastTouch(trace, s[j].0)
  }

  lemma {:induction false} TouchedBefore<K, V>(trace: seq<Op<K, V>>, k: K)
    ensures LastTouch(trace, k) < |trace|
    decreases |trace|
  {
    if trace != [] { TouchedBefore(trace[..|trace| - 1], k); }
  }

  lemma WithoutByRecency<K, V>(s: seq<(K, V)>, k: K, trace: seq<Op<K, V>>)
    requires Distinct(s) && ByRecency(s, trace)
    ensures ByRecency(Without(s, k), trace)
  {
    hide LastTouch, Lookup, Without;
    if HasKey(s, k) {
      var i :| 0 <= i < |s| && s[i].0 == k;
      LookupAt(s, i);
    } else {
      WithoutAbsent(s, k);
    }
  }

  /** Entries that the last operation does not touch keep their order; the touched one is in
      front. */
  lemma FrontByRecency<K, V>(s: seq<(K, V)>, k: K, v: V, trace: seq<Op<K, V>>, op: Op<K, V>)
    requires ByRecency(s, trace) && !HasKey(s, k) && Touches(op, k)
    ensures ByRecency([(k, v)] + s, trace + [op])
  {
    var all, t := [(k, v)] + s, trace + [op];
    assert t[..|t| - 1] == trace;
    forall i, j | 0 <= i < j < |all| ensures LastTouch(t, all[i].0) > LastTouch(t, all[j].0) {
      assert all[j] == s[j - 1] && s[j - 1].0 != k;
      TouchedBefore(trace, all[j].0);
      if i > 0 { assert all[i] == s[i - 1] && s[i - 1].0 != k; }
    }
  }

  lemma UntouchedByRecency<K, V>(s: seq<(K, V)>, trace: seq<Op<K, V>>, op: Op<K, V>)
    requires ByRecency(s, trace) && forall i :: 0 <= i < |s| ==> !Touches(op, s[i].0)
    ensures ByRecency(s, trace + [op])
  {
    assert (trace + [op])[..|trace|] == trace;
  }

  lemma PutByRecency<K, V>(s: seq<(K, V)>, k: K, v: V, capacity: nat, trace: seq<Op<K, V>>, op: Op<K, V>)
    requires Distinct(s) && ByRecency(s, trace) && Touches(op, k) && 1 <= capacity
    ensures ByRecency(PutEntry(s, k, v, capacity), trace + [op])
  {
    LookupHas(s, k);
    WithoutMeaning(s, k);
    WithoutByRecency(s, k, trace);
    if Lookup(s, k).Some? {
      FrontByRecency(Without(s, k), k, v, trace, op);
    } else {
      FrontByRecency(if |s| >= capacity && s != [] then DropLast(s) else s, k, v, trace, op);
    }
  }

  /** The cache lists its keys by last use, most recent first. */
  lemma {:induction false} CacheByRecency<K, V>(trace: seq<Op<K, V>>, capacity: nat)
    requires 1 <= capacity
    ensures ByRecency(Cache(trace, capacity), trace)
    decreases |trace|
  {
    if trace != [] {
      hide ByRecency, Distinct;
      var n := |trace| - 1;
      var before, op := trace[..n], trace[n];
      var s := Cache(before, capacity);
      assert before + [op] == trace;
      CacheByRecency(before, capacity);
      CacheBounded(before, capacity);
      match op
      case PutOp(k, v) => PutByRecency(s, k, v, capacity, before, op);
      case GetOp(k) => TouchByRecency(s, k, before, op);
      case ReadOp(k, v) => TouchByRecency(s, k, before, op); PutByRecency(s, k, v, capacity, before, op);
      case RemoveOp(k) => WithoutByRecency(s, k, before); UntouchedByRecency(Without(s, k), before, op);
      case ClearOp => NothingByRecency<K, V>(trace);
    } else {
      NothingByRecency<K, V>(trace);
    }
  }

  lemma NothingByRecency<K, V>(trace: seq<Op<K, V>>)
    ensures ByRecency([], trace)
  {}

  lemma TouchByRecency<K, V>(s: seq<(K, V)>, k: K, trace: seq<Op<K, V>>, op: Op<K, V>)
    requires Distinct(s) && ByRecency(s, trace) && Touches(op, k)
    ensures ByRecency(Touch(s, k), trace + [op])
  {
    LookupHas(s, k);
    WithoutMeaning(s, k);
    if Lookup(s, k).Some? {
      WithoutByRecency(s, k, trace);
      FrontByRecency(Without(s, k), k, Lookup(s, k).value, trace, op);
    } else {
      UntouchedByRecency(s, trace, op);
    }
  }

  lemma TracePut<K, V>(trace: seq<Op<K, V>>, k: K, v: V, capacity: nat)
    ensures Cache(trace + [PutOp(k, v)], capacity) == PutEntry(Cache(trace, capacity), k, v, capacity)
  {
    assert (trace + [PutOp(k, v)])[..|trace|] == trace;
  }

  /** Putting a new key into a full cache removes exactly the key used least recently. */
  lemma EvictionIsLeastRecent<K, V>(trace: seq<Op<K, V>>, k: K, v: V, capacity: nat)
    requires 1 <= capacity && |Cache(trace, capacity)| == capacity && !HasKey(Cache(trace, capacity), k)
    ensures var s := Cache(trace, capacity);
            var r := Cache(trace + [PutOp(k, v)], capacity);
            var victim := s[|s| - 1].0;
            && (forall i :: 0 <= i < |s| && s[i].0 != victim ==> LastTouch(trace, victim) < LastTouch(trace, s[i].0))
            && (forall j :: j != k ==> Lookup(r, j) == if j == victim then None else Lookup(s, j))
            && Lookup(r, k) == Some(v)
  {
    hide Cache, PutEntry, Lookup, LastTouch;
    CacheByRecency(trace, capacity);
    CacheBounded(trace, capacity);
    PutMeaning(Cache(trace, capacity), k, v, capacity);
    TracePut(trace, k, v, capacity);
    assert (trace + [PutOp(k, v)])[..|trace|] == trace;
  }

  /** The value most recently written for a key and not removed since. */
  function LastWritten<K(==), V>(trace: seq<Op<K, V>>, capacity: nat, k: K): Option<V> {
    if trace == [] then None
    else
      var before := trace[..|trace| - 1];
      match trace[|trace| - 1]
      case PutOp(j, v) => if j == k then Some(v) else LastWritten(before, capacity, k)
      case ReadOp(j, v) =>
        if j == k && Lookup(Cache(before, capacity), k).None? then Some(v) else LastWritten(before, capacity, k)
      case RemoveOp(j) => if j == k then None else LastWritten(before, capacity, k)
      case ClearOp => None
      case GetOp(_) => LastWritten(before, capacity, k)
  }

  /** A hit returns the value last written. */
  lemma {:induction false} HitIsLastWritten<K, V>(trace: seq<Op<K, V>>, capacity: nat, k: K)
    requires 1 <= capacity
    ensures Lookup(Cache(trace, capacity), k).Some? ==>
              Lookup(Cache(trace, capacity), k) == LastWritten(trace, capacity, k)
    decreases |trace|
  {
    if trace != [] {
      var before, op := trace[..|trace| - 1], trace[|trace| - 1];
      HitIsLastWritten(before, capacity, k);
      CacheBounded(before, capacity);
      var s := Cache(before, capacity);
      hide Lookup, Distinct, PutEntry, Touch, Without;
      LookupHas(s, k);
      match op
      case PutOp(j, v) => PutMeaning(s, j, v, capacity);
      case GetOp(j) => TouchMeaning(s, j);
      case ReadOp(j, v) => TouchMeaning(s, j); PutMeaning(s, j, v, capacity);
      case RemoveOp(j) => WithoutMeaning(s, j); LookupHas(Without(s, j), j);
      case ClearOp => NothingFound<K, V>(k);
    } else {
      NothingFound<K, V>(k);
    }
  }

  lemma NothingFound<K, V>(k: K)
    ensures Lookup<K, V>([], k) == None
  {}

  // --------------------------------------------------------------------- inclusion

  function Keys<K, V>(s: seq<(K, V)>): (r: seq<K>)
    ensures |r| == |s| && forall i :: 0 <= i < |s| ==> r[i] == s[i].0
  {
    seq(|s|, i requires 0 <= i < |s| => s[i].0)
  }

  function Omit<K(==)>(ks: seq<K>, k: K): seq<K> {
    if ks == [] then [] else if ks[0] == k then Omit(ks[1..], k) else [ks[0]] + Omit(ks[1..], k)
  }

  /** Both put and read-through bring the key to the front. */
  function Use<K(==)>(ks: seq<K>, k: K, capacity: nat): seq<K> {
    if k in ks then [k] + Omit(ks, k)
    else [k] + if |ks| >= capacity && ks != [] then DropLast(ks) else ks
  }

  function KeyStep<K(==), V>(ks: seq<K>, op: Op<K, V>, capacity: nat): seq<K>
    requires !op.GetOp?
  {
    match op
    case PutOp(k, _) => Use(ks, k, capacity)
    case ReadOp(k, _) => Use(ks, k, capacity)
    case RemoveOp(k) => Omit(ks, k)
    case ClearOp => []
  }

  lemma {:induction false} KeysWithout<K, V>(s: seq<(K, V)>, k: K)
    ensures Keys(Without(s, k)) == Omit(Keys(s), k)
  {
    if s != [] {
      KeysWithout(s[1..], k);
      assert Keys(s)[1..] == Keys(s[1..]);
    }
  }

  lemma KeysCons<K, V>(k: K, v: V, s: seq<(K, V)>)
    ensures Keys([(k, v)] + s) == [k] + Keys(s)
  {}

  lemma KeysPresent<K, V>(s: seq<(K, V)>, k: K)
    ensures Lookup(s, k).Some? <==> k in Keys(s)
    ensures s != [] ==> Keys(DropLast(s)) == DropLast(Keys(s))
  {
    LookupHas(s, k);
    assert HasKey(s, k) <==> k in Keys(s);
  }

  lemma KeysPut<K, V>(s: seq<(K, V)>, k: K, v: V, capacity: nat)
    ensures Keys(PutEntry(s, k, v, capacity)) == Use(Keys(s), k, capacity)
    ensures Lookup(s, k).Some? ==> Keys(Touch(s, k)) == Use(Keys(s), k, capacity)
  {
    KeysPresent(s, k);
    KeysWithout(s, k);
    hide Keys, Without, Omit, Lookup, DropLast;
    KeysCons(k, v, Without(s, k));
    KeysCons(k, v, if |s| >= capacity && s != [] then DropLast(s) else s);
    if Lookup(s, k).Some? { KeysCons(k, Lookup(s, k).value, Without(s, k)); }
  }

  lemma KeysApply<K, V>(s: seq<(K, V)>, op: Op<K, V>, capacity: nat)
    requires !op.GetOp?
    ensures Keys(Apply(s, op, capacity)) == KeyStep(Keys(s), op, capacity)
  {
    hide PutEntry, Touch, Use, Omit, Without;
    match op
    case PutOp(k, v) => KeysPut(s, k, v, capacity);
    case ReadOp(k, v) => KeysPut(s, k, v, capacity);
    case RemoveOp(k) => KeysWithout(s, k);
    case ClearOp =>
  }

  ghost predicate NoRepeats<K>(ks: seq<K>) {
    forall i, j :: 0 <= i < j < |ks| ==> ks[i] != ks[j]
  }

  /** `small` is a prefix of `big`, and no key is listed twice. */
  ghost predicate Included<K>(small: seq<K>, big: seq<K>) { small <= big && NoRepeats(big) }

  lemma {:induction false} OmitAppend<K>(a: seq<K>, b: seq<K>, k: K)
    ensures Omit(a + b, k) == Omit(a, k) + Omit(b, k)
  {
    if a == [] {
      assert a + b == b;
    } else {
      assert (a + b)[1..] == a[1..] + b;
      OmitAppend(a[1..], b, k);
    }
  }

  lemma {:induction false} OmitMeaning<K>(ks: seq<K>, k: K)
    requires NoRepeats(ks)
    ensures NoRepeats(Omit(ks, k)) && forall x :: x in Omit(ks, k) <==> x in ks && x != k
    ensures |Omit(ks, k)| == |ks| - if k in ks then 1 else 0
    ensures k !in ks ==> Omit(ks, k) == ks
  {
    if ks != [] {
      var rest := ks[1..];
      assert ks == [ks[0]] + rest;
      assert ks[0] !in rest;
      OmitMeaning(rest, k);
    }
  }

  lemma PrefixNoRepeats<K>(small: seq<K>, big: seq<K>)
    requires Included(small, big)
    ensures NoRepeats(small) && forall x :: x in small ==> x in big
  {
    forall i, j | 0 <= i < j < |small| ensures small[i] != small[j] {
      assert big[i] == small[i] && big[j] == small[j];
    }
  }

  lemma OmitIncluded<K>(small: seq<K>, big: seq<K>, k: K)
    requires Included(small, big)
    ensures Included(Omit(small, k), Omit(big, k))
  {
    assert big == small + big[|small|..];
    OmitAppend(small, big[|small|..], k);
    OmitMeaning(big, k);
  }

  lemma FrontIncluded<K>(small: seq<K>, big: seq<K>, k: K)
    requires Included(small, big) && k !in big
    ensures Included([k] + small, [k] + big)
  {}

  /** The rest of the list after a use, before the key is put in front. */
  function Others<K(==)>(ks: seq<K>, k: K, capacity: nat): seq<K> {
    if k in ks then Omit(ks, k) else if |ks| >= capacity && ks != [] then DropLast(ks) else ks
  }

  lemma OthersIncluded<K>(small: seq<K>, big: seq<K>, k: K, c1: nat, c2: nat)
    requires Included(small, big) && 1 <= c1 <= c2 && |small| <= c1 && |big| <= c2
    ensures Included(Others(small, k, c1), Others(big, k, c2)) && k !in Others(big, k, c2)
    ensures |Others(small, k, c1)| < c1 && |Others(big, k, c2)| < c2
  {
    PrefixNoRepeats(small, big);
    OmitMeaning(small, k);
    OmitMeaning(big, k);
    OmitIncluded(small, big, k);
    hide Omit;
    if k !in big {
      assert forall x :: x in DropLast(big + [k]) <==> x in big by { assert DropLast(big + [k]) == big; }
    }
  }

  lemma UseIncluded<K>(small: seq<K>, big: seq<K>, k: K, c1: nat, c2: nat)
    requires Included(small, big) && 1 <= c1 <= c2 && |small| <= c1 && |big| <= c2
    ensures Included(Use(small, k, c1), Use(big, k, c2))
    ensures |Use(small, k, c1)| <= c1 && |Use(big, k, c2)| <= c2
  {
    OthersIncluded(small, big, k, c1, c2);
    FrontIncluded(Others(small, k, c1), Others(big, k, c2), k);
  }

  /** Run the same puts, removals and read-throughs on two caches: the keys of the smaller
      cache are always a prefix of the keys of the larger one. */
  lemma {:induction false} SmallerCacheIsPrefix<K, V>(trace: seq<Op<K, V>>, c1: nat, c2: nat)
    requires 1 <= c1 <= c2 && forall i :: 0 <= i < |trace| ==> !trace[i].GetOp?
    ensures Included(Keys(Cache(trace, c1)), Keys(Cache(trace, c2)))
    ensures |Cache(trace, c1)| <= c1 && |Cache(trace, c2)| <= c2
    decreases |trace|
  {
    if trace != [] {
      var n := |trace| - 1;
      var before, op := trace[..n], trace[n];
      SmallerCacheIsPrefix(before, c1, c2);
      hide Included, Use, Omit, Apply;
      var small, big := Cache(before, c1), Cache(before, c2);
      KeysApply(small, op, c1);
      KeysApply(big, op, c2);
      match op
      case PutOp(k, _) => UseIncluded(Keys(small), Keys(big), k, c1, c2);
      case ReadOp(k, _) => UseIncluded(Keys(small), Keys(big), k, c1, c2);
      case RemoveOp(k) => OmitIncluded(Keys(small), Keys(big), k); WithoutShorter(small, k); WithoutShorter(big, k);
      case ClearOp => NothingIncluded<K>();
    } else {
      NothingIncluded<K>();
      assert Keys<K, V>([]) == [];
    }
  }

  lemma NothingIncluded<K>()
    ensures Included<K>([], [])
  {}

  lemma {:induction false} WithoutShorter<K, V>(s: seq<(K, V)>, k: K)
    ensures |Without(s, k)| <= |s|
  {
    if s != [] { WithoutShorter(s[1..], k); }
  }

  lemma TouchKeys<K, V>(s: seq<(K, V)>, k: K)
    ensures HasKey(s, k) <==> k in Keys(s)
    ensures !HasKey(s, k) ==> Touch(s, k) == s
    ensures HasKey(s, k) ==> Keys(Touch(s, k)) == Use(Keys(s), k, |s|) && Keys(Touch(s, k))[0] == k
  {
    LookupHas(s, k);
    KeysPresent(s, k);
    if HasKey(s, k) { KeysPut(s, k, Lookup(s, k).value, |s|); }
  }

  /** A bare get leaves the keys of the smaller cache a prefix of those of the larger one
      exactly when both hit, both miss, or the smaller one is empty. */
  lemma GetKeepsPrefixExactly<K, V>(small: seq<(K, V)>, big: seq<(K, V)>, k: K)
    requires Distinct(small) && Distinct(big) && Included(Keys(small), Keys(big))
    ensures Keys(Touch(small, k)) <= Keys(Touch(big, k)) <==> small == [] || HasKey(small, k) || !HasKey(big, k)
  {
    TouchKeys(small, k);
    TouchKeys(big, k);
    PrefixNoRepeats(Keys(small), Keys(big));
    hide Touch, Use, HasKey;
    if HasKey(small, k) {
      UseIncluded(Keys(small), Keys(big), k, |small|, |big|);
    } else if HasKey(big, k) && small != [] {
      assert Keys(Touch(small, k))[0] == Keys(small)[0] != k == Keys(Touch(big, k))[0];
    }
  }

  /** The same after any trace of puts, removals and read-throughs. */
  lemma TraceGetKeepsPrefixExactly<K, V>(trace: seq<Op<K, V>>, k: K, c1: nat, c2: nat)
    requires 1 <= c1 <= c2 && forall i :: 0 <= i < |trace| ==> !trace[i].GetOp?
    ensures var longer := trace + [GetOp(k)];
            Keys(Cache(longer, c1)) <= Keys(Cache(longer, c2))
            <==> Cache(trace, c1) == [] || HasKey(Cache(trace, c1), k) || !HasKey(Cache(trace, c2), k)
  {
    assert (trace + [GetOp(k)])[..|trace|] == trace;
    SmallerCacheIsPrefix(trace, c1, c2);
    CacheBounded(trace, c1);
    CacheBounded(trace, c2);
    GetKeepsPrefixExactly(Cache(trace, c1), Cache(trace, c2), k);
    hide Keys, HasKey, Touch, Included, Distinct;
  }

  lemma TwoPuts(v: int, capacity: nat)
    requires 1 <= capacity <= 2
    ensures Cache([PutOp(0, v), PutOp(1, v)], capacity) == if capacity == 1 then [(1, v)] else [(1, v), (0, v)]
  {
    TracePut<int, int>([], 0, v, capacity);
    assert [] + [PutOp(0, v)] == [PutOp(0, v)];
    assert Cache([PutOp(0, v)], capacity) == [(0, v)];
    TracePut([PutOp(0, v)], 1, v, capacity);
    assert [PutOp(0, v)] + [PutOp(1, v)] == [PutOp(0, v), PutOp(1, v)];
    WithoutAbsent([(0, v)], 1);
    assert DropLast([(0, v)]) == [];
  }

  /** Plain gets break inclusion: a hit in the larger cache only reorders that one. */
  lemma PlainGetsBreakInclusion(v: int)
    ensures var trace := [PutOp(0, v), PutOp(1, v), GetOp(0)];
            !(Keys(Cache(trace, 1)) <= Keys(Cache(trace, 2)))
  {
    var trace := [PutOp(0, v), PutOp(1, v), GetOp(0)];
    assert trace[..2] == [PutOp(0, v), PutOp(1, v)];
    TwoPuts(v, 1);
    TwoPuts(v, 2);
    LookupAt([(1, v), (0, v)], 1);
    WithoutAbsent([(1, v)], 0);
    assert Keys(Cache(trace, 1))[0] == 1 && Keys(Cache(trace, 2))[0] == 0;
  }
}
