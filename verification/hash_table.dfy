/** The chained hash table of list.c.  Keys are what the compare function compares,
    the hash function is arbitrary, and a chain is the sequence of its elements. */
module HashTables {
  import opened Bits
  import opened Options

  /** struct hash_element; an element without key is marked for removal. */
  datatype Element<K, V> = Element(key: Option<K>, value: V, hashValue: nat)

  function Unlinked<T>(s: seq<T>, i: int): (r: seq<T>)
    requires 0 <= i < |s|
    ensures |r| == |s| - 1
    ensures forall j :: 0 <= j < i ==> r[j] == s[j]
    ensures forall j :: i <= j < |r| ==> r[j] == s[j + 1]
  {
    s[..i] + s[i + 1..]
  }

  /** Element i taken to the front. */
  function Fronted<T>(s: seq<T>, i: int): (r: seq<T>)
    requires 0 <= i < |s|
    ensures |r| == |s| && r[0] == s[i]
    ensures forall j :: 0 < j < |s| ==> r[j] == s[if j <= i then j - 1 else j]
  {
    [s[i]] + Unlinked(s, i)
  }

  /** What a chain has to do with the map the table stands for: its elements are
      entries of the map that hash to its bucket, no key twice, and every such entry
      of the map is there. */
  ghost predicate Represents<K(!new), V>(chain: seq<Element<K, V>>, m: map<K, V>, hash: K -> nat, mask: nat, b: int) {
    && (forall i :: 0 <= i < |chain| ==> IsEntry(chain[i], m, hash, mask, b))
    && (forall i, j :: 0 <= i < j < |chain| ==> chain[i].key != chain[j].key)
    && (forall k :: k in m && And(hash(k), mask) == b ==> InChain(chain, k))
  }

  ghost predicate IsEntry<K(!new), V>(e: Element<K, V>, m: map<K, V>, hash: K -> nat, mask: nat, b: int) {
    e.key.Some? && e.key.value in m && e.value == m[e.key.value]
    && e.hashValue == hash(e.key.value) && And(hash(e.key.value), mask) == b
  }

  ghost predicate InChain<K, V>(chain: seq<Element<K, V>>, k: K) {
    exists i :: 0 <= i < |chain| && chain[i].key == Some(k)
  }

  lemma FrontRepresents<K(!new), V>(chain: seq<Element<K, V>>, i: int, m: map<K, V>, hash: K -> nat, mask: nat, b: int)
    requires Represents(chain, m, hash, mask, b) && 0 <= i < |chain|
    ensures Represents(Fronted(chain, i), m, hash, mask, b)
  {
    hide And, InChain, IsEntry, Fronted;
    forall k | InChain(chain, k)
      ensures InChain(Fronted(chain, i), k)
    {
      InFront(chain, i, k);
    }
  }

  lemma InFront<K(!new), V>(chain: seq<Element<K, V>>, i: int, k: K)
    requires InChain(chain, k) && 0 <= i < |chain|
    ensures InChain(Fronted(chain, i), k)
  {
    hide Fronted;
    var j :| 0 <= j < |chain| && chain[j].key == Some(k);
    assert Fronted(chain, i)[if j == i then 0 else if j < i then j + 1 else j].key == Some(k);
  }

  lemma PushRepresents<K(!new), V>(chain: seq<Element<K, V>>, k: K, v: V, m: map<K, V>,
                                   hash: K -> nat, mask: nat, b: int)
    requires Represents(chain, m, hash, mask, b) && k !in m
    ensures var m' := m[k := v];
            if And(hash(k), mask) == b then Represents([Element(Some(k), v, hash(k))] + chain, m', hash, mask, b)
            else Represents(chain, m', hash, mask, b)
  {
    hide And;
    var e := Element(Some(k), v, hash(k));
    var pushed := [e] + chain;
    assert pushed[0] == e && forall j :: 0 <= j < |chain| ==> pushed[j + 1] == chain[j];
    forall x | InChain(chain, x)
      ensures InChain(pushed, x)
    {
      var j :| 0 <= j < |chain| && chain[j].key == Some(x);
      assert pushed[j + 1].key == Some(x);
    }
    assert InChain(pushed, k);
  }

  lemma RemoveRepresents<K(!new), V>(chain: seq<Element<K, V>>, i: int, k: K, m: map<K, V>, hash: K -> nat,
            mask: nat, b: int)
    requires Represents(chain, m, hash, mask, b) && k in m
    requires And(hash(k), mask) == b ==> 0 <= i < |chain| && chain[i].key == Some(k)
    ensures if And(hash(k), mask) == b then Represents(Unlinked(chain, i), m - {k}, hash, mask, b)
            else Represents(chain, m - {k}, hash, mask, b)
  {
    if And(hash(k), mask) == b {
      var rest := Unlinked(chain, i);
      forall x | x in m - {k} && InChain(chain, x)
        ensures InChain(rest, x)
      {
        var j :| 0 <= j < |chain| && chain[j].key == Some(x);
        assert rest[if j < i then j else j - 1].key == Some(x);
      }
    }
  }

  lemma UpdateRepresents<K(!new), V>(chain: seq<Element<K, V>>, i: int, k: K, v: V, m: map<K, V>, hash: K -> nat,
            mask: nat, b: int)
    requires Represents(chain, m, hash, mask, b) && k in m
    requires And(hash(k), mask) == b ==> 0 <= i < |chain| && chain[i].key == Some(k)
    ensures var m' := m[k := v];
            if And(hash(k), mask) == b then Represents(chain[i := chain[i].(value := v)], m', hash, mask, b)
            else Represents(chain, m', hash, mask, b)
  {
    hide And, InChain;
    if And(hash(k), mask) == b {
      forall x | InChain(chain, x)
        ensures InChain(chain[i := chain[i].(value := v)], x)
      {
        InUpdated(chain, i, v, x);
      }
    }
  }

  lemma InUpdated<K(!new), V>(chain: seq<Element<K, V>>, i: int, v: V, k: K)
    requires InChain(chain, k) && 0 <= i < |chain|
    ensures InChain(chain[i := chain[i].(value := v)], k)
  {
    var j :| 0 <= j < |chain| && chain[j].key == Some(k);
    assert chain[i := chain[i].(value := v)][j].key == Some(k);
  }

  class HashTable<K(==, !new), V> {
    var nElements: int
    const mask: nat
    const hash: K -> nat
    const buckets: array<seq<Element<K, V>>>
    ghost const log: nat
    ghost var contents: map<K, V>

    ghost predicate Shape() {
      buckets.Length == mask + 1 == Pow2(log)
    }

    /** The table refines the finite map contents. */
    ghost predicate Valid()
      reads this, buckets
    {
      && Shape()
      && nElements == |contents|
      && forall b :: 0 <= b < buckets.Length ==> Represents(buckets[b], contents, hash, mask, b)
    }

    /** hash_init; the number of buckets is rounded up to a power of two. */
    constructor (nBuckets: nat, hash: K -> nat)
      requires nBuckets > 0
      ensures Valid() && contents == map[] && this.hash == hash && fresh(buckets) && buckets.Length >= nBuckets
    {
      var n := 1;
      ghost var l := 0;
      while n < nBuckets
        invariant n == Pow2(l)
        decreases nBuckets - n
      {
        n := n * 2;
        l := l + 1;
      }
      this.hash, mask, nElements := hash, n - 1, 0;
      log, contents := l, map[];
      buckets := new seq<Element<K, V>>[n](_ => []);
    }

    function BucketOf(key: K): nat {
      And(hash(key), mask)
    }

    lemma BucketExists(key: K)
      requires Shape()
      ensures BucketOf(key) < buckets.Length
    {
      AndLow(hash(key), log);
    }

    lemma BucketInTable(key: K)
      requires Valid()
      ensures BucketOf(key) < buckets.Length
    {
      BucketExists(key);
    }

    /** hash_lookup_fast: the value of a key, and a hit is moved to the front of its
        chain, which changes no mapping. */
    method LookupFast(b: nat, key: K, hv: nat) returns (found: Option<V>)
      requires Valid() && hv == hash(key) && b == BucketOf(key) < buckets.Length
      modifies buckets
      ensures Valid()
      ensures found == if key in contents then Some(contents[key]) else None
      ensures found.Some? ==> |buckets[b]| > 0 && buckets[b][0] == Element(Some(key), found.value, hv)
    {
      var i := Find(b, key, hv);
      if i == |buckets[b]| {
        return None;
      }
      var he := buckets[b][i];
      if i > 0 {
        FrontRepresents(buckets[b], i, contents, hash, mask, b);
        buckets[b] := Fronted(buckets[b], i);
      }
      found := Some(he.value);
    }

    /** The walk along a chain. */
    method Find(b: nat, key: K, hv: nat) returns (i: nat)
      requires Valid() && hv == hash(key) && b == BucketOf(key) < buckets.Length
      ensures i <= |buckets[b]| && (i < |buckets[b]| <==> key in contents)
      ensures i < |buckets[b]| ==> buckets[b][i] == Element(Some(key), contents[key], hv)
    {
      var chain := buckets[b];
      i := 0;
      while i < |chain| && !(hv == chain[i].hashValue && chain[i].key == Some(key))
        invariant i <= |chain|
        invariant forall j :: 0 <= j < i ==> chain[j].key != Some(key)
      {
        assert IsEntry(chain[i], contents, hash, mask, b);
        i := i + 1;
      }
      if i < |chain| {
        assert IsEntry(chain[i], contents, hash, mask, b);
      } else {
        assert key in contents ==> InChain(chain, key);
      }
    }

    /** hash_lookup */
    method Lookup(key: K) returns (found: Option<V>)
      requires Valid()
      modifies buckets
      ensures Valid()
      ensures found == if key in contents then Some(contents[key]) else None
    {
      BucketExists(key);
      found := LookupFast(BucketOf(key), key, hash(key));
    }

    /** hash_add_fast; the source assumes that the key is new. */
    method AddFast(b: nat, key: K, hv: nat, value: V)
      requires Valid() && hv == hash(key) && b == BucketOf(key) < buckets.Length && key !in contents
      modifies this`nElements, this`contents, buckets
      ensures Valid() && contents == old(contents)[key := value]
    {
      forall c | 0 <= c < buckets.Length {
        PushRepresents(buckets[c], key, value, contents, hash, mask, c);
      }
      buckets[b] := [Element(Some(key), value, hv)] + buckets[b];
      nElements := nElements + 1;
      contents := contents[key := value];
    }

    /** `he->value = value` for the element at the front of a chain. */
    method ReplaceFront(b: nat, key: K, value: V)
      requires Valid() && b == BucketOf(key) < buckets.Length
      requires |buckets[b]| > 0 && buckets[b][0].key == Some(key)
      modifies this`contents, buckets
      ensures Valid() && contents == old(contents)[key := value]
    {
      assert IsEntry(buckets[b][0], contents, hash, mask, b);
      forall c | 0 <= c < buckets.Length {
        UpdateRepresents(buckets[c], 0, key, value, contents, hash, mask, c);
      }
      buckets[b] := buckets[b][0 := buckets[b][0].(value := value)];
      contents := contents[key := value];
    }

    /** hash_add */
    method Add(key: K, value: V, replace: bool) returns (ret: bool)
      requires Valid()
      modifies this`nElements, this`contents, buckets
      ensures Valid() && ret == (replace || key !in old(contents))
      ensures contents == if ret then old(contents)[key := value] else old(contents)
    {
      BucketExists(key);
      var hv, b := hash(key), BucketOf(key);
      var he := LookupFast(b, key, hv);
      if he.Some? {
        if replace {
          ReplaceFront(b, key, value);
        }
        ret := replace;
      } else {
        AddFast(b, key, hv, value);
        ret := true;
      }
    }

    /** hash_remove */
    method Remove(key: K) returns (ret: bool)
      requires Valid()
      modifies this`nElements, this`contents, buckets
      ensures Valid() && ret == (key in old(contents)) && contents == old(contents) - {key}
    {
      BucketExists(key);
      var b := BucketOf(key);
      var i := Find(b, key, hash(key));
      if i == |buckets[b]| {
        return false;
      }
      forall c | 0 <= c < buckets.Length {
        RemoveRepresents(buckets[c], i, key, contents, hash, mask, c);
      }
      buckets[b] := Unlinked(buckets[b], i);
      nElements := nElements - 1;
      contents := contents - {key};
      return true;
    }
  }
}
