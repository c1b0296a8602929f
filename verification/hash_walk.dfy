/** Lookups between two calls of an iterator.  A hit is moved to the front of its chain,
    and the iterator may stand in that chain. */
module HashWalks {
  import opened Bits
  import opened HashBuckets
  import opened HashIterators
  import opened HashTables
  import opened Options

  /** Where the element at pos is when the one at p has been moved to the front. */
  function AfterMove(pos: nat, p: nat): nat {
    if p < pos then pos else if p == pos then 0 else pos + 1
  }

  /** A lookup that finds the element at p leaves a walk that is to go on at pos with the
      same elements to return exactly if that element was returned already or is the
      first.  A later element is skipped; the next one is returned with all those before
      it once more. */
  lemma LookupKeepsWalkExactly<T(!new)>(s: seq<T>, pos: nat, p: nat)
    requires pos <= |s| && p < |s| && forall i, j :: 0 <= i < j < |s| ==> s[i] != s[j]
    ensures var moved, next := Fronted(s, p), AfterMove(pos, p);
            && next <= |s| && (pos < |s| ==> moved[next] == s[pos])
            && (moved[next..] == s[pos..] <==> p < pos || p == 0)
            && (p > pos ==> s[p] !in moved[next..])
            && (p == pos ==> moved[next..] == moved)
  {
    hide Fronted;
    var moved, next := Fronted(s, p), AfterMove(pos, p);
    if p > pos {
      assert s[pos..][p - pos] == s[p];
    } else if p == pos && p > 0 {
      assert |moved[next..]| == |s| && |s[pos..]| < |s|;
    }
  }

  /** In a chain with marked elements the walk for a key stops at its entry, if that has
      not been marked. */
  lemma PositionMasked<K(!new), V>(chain: seq<Element<K, V>>, full: seq<Element<K, V>>, marked: set<K>, m: map<K, V>,
                                   hash: K -> nat, mask: nat, b: int, key: K)
    requires Masked(chain, full, marked) && Represents(full, m, hash, mask, b) && And(hash(key), mask) == b
    ensures var i := Position(chain, key, hash(key));
            && (i < |chain| <==> key in m && key !in marked)
            && (i < |chain| ==> chain[i] == Element(Some(key), m[key], hash(key)))
  {
    hide And, Position;
    var i := Position(chain, key, hash(key));
    PositionStops(chain, key, hash(key));
    if i < |chain| {
      assert IsEntry(full[i], m, hash, mask, b);
    } else if key in m {
      assert InChain(full, key);
      var j :| 0 <= j < |full| && full[j].key == Some(key);
      assert IsEntry(full[j], m, hash, mask, b);
    }
  }

  lemma MaskedFront<K(!new), V>(chain: seq<Element<K, V>>, full: seq<Element<K, V>>, marked: set<K>, p: nat)
    requires Masked(chain, full, marked) && p < |full|
    ensures |chain| == |full| && Masked(Fronted(chain, p), Fronted(full, p), marked)
  {
    hide Fronted, InChain;
    forall k | k in marked
      ensures InChain(Fronted(full, p), k)
    {
      InFront(full, p, k);
    }
  }

  /** Moving an element that was walked to the front leaves the same elements walked. */
  lemma WalkedFront<K(!new), V>(seen: set<K>, m: map<K, V>, hash: K -> nat, mask: nat, start: int, frontier: int,
                                full: seq<Element<K, V>>, pos: nat, p: nat)
    requires p < pos <= |full| && Walked(seen, m, hash, mask, start, frontier, full[..pos])
    ensures Walked(seen, m, hash, mask, start, frontier, Fronted(full, p)[..pos])
  {
    hide And, Fronted;
    var before, after := full[..pos], Fronted(full, p)[..pos];
    forall k
      ensures InChain(before, k) <==> InChain(after, k)
    {
      if InChain(before, k) {
        var j :| 0 <= j < pos && before[j].key == Some(k);
        assert after[if j == p then 0 else if j < p then j + 1 else j].key == Some(k);
      }
      if InChain(after, k) {
        var j :| 0 <= j < pos && after[j].key == Some(k);
        assert before[if j == 0 then p else if j <= p then j - 1 else j].key == Some(k);
      }
    }
  }

  /** The compare function is not given the key of a marked element, which is null. */
  ghost predicate Comparable<K(!new), V>(chain: seq<Element<K, V>>, key: K, hv: nat) {
    forall j :: 0 <= j < Position(chain, key, hv) && chain[j].hashValue == hv ==> chain[j].key.Some?
  }

  /** By the lemma above, a lookup disturbs no walk that does not stand in the chain before
      the element found. */
  ghost predicate Harmless<K(!new), V>(chain: seq<Element<K, V>>, key: K, hv: nat, pos: nat) {
    var p := Position(chain, key, hv);
    p == |chain| || p < pos || p == 0
  }

  /** The walk along a chain, in which every key compared is there. */
  method Find<K(==, !new), V>(chain: seq<Element<K, V>>, key: K, hv: nat) returns (i: nat)
    requires Comparable(chain, key, hv)
    ensures i == Position(chain, key, hv)
  {
    hide Position;
    PositionStops(chain, key, hv);
    i := 0;
    while i < |chain|
      invariant i <= |chain|
      invariant forall j :: 0 <= j < i ==> !(chain[j].hashValue == hv && chain[j].key == Some(key))
    {
      if hv == chain[i].hashValue {
        assert chain[i].key.Some?;
        if chain[i].key == Some(key) {
          break;
        }
      }
      i := i + 1;
    }
    PositionIs(chain, key, hv, i);
  }

  /** hash_lookup_fast between two calls of an iterator.  Marked elements are not found,
      and the walk goes on with the elements it would have returned otherwise. */
  method Lookup<K(==, !new), V>(hi: HashIterator<K, V>, key: K) returns (found: Option<V>)
    requires hi.Valid() && hi.table.BucketOf(key) < hi.table.buckets.Length
    requires var chain, hv := hi.table.buckets[hi.table.BucketOf(key)], hi.table.hash(key);
             Comparable(chain, key, hv) && (hi.table.BucketOf(key) == hi.bucket ==> Harmless(chain, key, hv, hi.Pos()))
    modifies hi`full, hi`last, hi.table.buckets
    ensures hi.Valid() && hi.Pos() == old(hi.Pos()) && hi.full[hi.Pos()..] == old(hi.full[hi.Pos()..])
    ensures (hi.last >= 0) == (old(hi.last) >= 0) && (hi.last >= 0 ==> hi.full[hi.last] == old(hi.full[hi.last]))
    ensures found == if key in hi.table.contents && key !in hi.marked then Some(hi.table.contents[key]) else None
  {
    hide Comparable, Position, hi.Valid;
    var b := hi.table.BucketOf(key);
    var chain := hi.table.buckets[b];
    var i := Find(chain, key, hi.table.hash(key));
    FoundIn(hi, key);
    if i == |chain| {
      return None;
    }
    found := Some(chain[i].value);
    if i > 0 {
      if b == hi.bucket {
        MoveWalked(hi, i);
      } else {
        MoveElsewhere(hi, b, i);
      }
    }
  }

  /** What is found in a table some of whose elements are marked. */
  lemma FoundIn<K(!new), V>(hi: HashIterator<K, V>, key: K)
    requires hi.Valid() && hi.table.BucketOf(key) < hi.table.buckets.Length
    ensures var chain := hi.table.buckets[hi.table.BucketOf(key)];
            var i := Position(chain, key, hi.table.hash(key));
            && (i < |chain| <==> key in hi.table.contents && key !in hi.marked)
            && (i < |chain| ==> chain[i] == Element(Some(key), hi.table.contents[key], hi.table.hash(key)))
  {
    hide And, Position, hi.PlaceValid, hi.SeenValid;
    var table, b := hi.table, hi.table.BucketOf(key);
    if b == hi.bucket {
      PositionMasked(table.buckets[b], hi.full, hi.marked, table.contents, table.hash, table.mask, b, key);
    } else {
      PositionInTable(table.buckets[b], table.contents, table.hash, table.mask, b, key);
    }
  }

  /** Moving an element of a bucket that is not locked. */
  method MoveElsewhere<K(==, !new), V>(hi: HashIterator<K, V>, b: nat, i: nat)
    requires hi.Valid() && b < hi.table.buckets.Length && b != hi.bucket && i < |hi.table.buckets[b]|
    modifies hi.table.buckets
    ensures hi.Valid()
  {
    hide And, Masked, Represents, Fronted, Walked, IsLeft;
    FrontRepresents(hi.table.buckets[b], i, hi.table.contents, hi.table.hash, hi.table.mask, b);
    hi.table.buckets[b] := Fronted(hi.table.buckets[b], i);
  }

  /** What is behind a place stays there, and what is before it may be moved. */
  lemma FrontKeeps<T>(s: seq<T>, p: nat, pos: nat, last: int)
    requires p < pos <= |s| && last < pos
    ensures Fronted(s, p)[pos..] == s[pos..]
    ensures last >= 0 ==> AfterMove(last, p) < pos && Fronted(s, p)[AfterMove(last, p)] == s[last]
  {
    hide Fronted;
  }

  lemma WalkedPartIs<K(!new), V>(hi: HashIterator<K, V>)
    requires hi.Pos() <= |hi.full|
    ensures hi.WalkedPart() == hi.full[..hi.Pos()]
  {
  }

  /** Moving an element of the locked chain that was returned already. */
  method MoveWalked<K(==, !new), V>(hi: HashIterator<K, V>, i: nat)
    requires hi.Valid() && hi.bucket >= 0 && i < hi.Pos()
    modifies hi`full, hi`last, hi.table.buckets
    ensures hi.Valid() && hi.Pos() == old(hi.Pos()) && hi.full[hi.Pos()..] == old(hi.full[hi.Pos()..])
    ensures (hi.last >= 0) == (old(hi.last) >= 0) && (hi.last >= 0 ==> hi.full[hi.last] == old(hi.full[hi.last]))
  {
    hide And, Masked, Represents, Fronted, Walked, IsLeft, AfterMove;
    var table := hi.table;
    WalkedPartIs(hi);
    FrontRepresents(hi.full, i, table.contents, table.hash, table.mask, hi.bucket);
    MaskedFront(table.buckets[hi.bucket], hi.full, hi.marked, i);
    WalkedFront(hi.seen, hi.snapshot, table.hash, table.mask, hi.bucketIndexStart, hi.frontier, hi.full, hi.Pos(), i);
    FrontKeeps(hi.full, i, hi.Pos(), hi.last);
    table.buckets[hi.bucket] := Fronted(table.buckets[hi.bucket], i);
    hi.full := Fronted(hi.full, i);
    if hi.last >= 0 {
      hi.last := AfterMove(hi.last, i);
    }
    WalkedPartIs(hi);
  }
}
