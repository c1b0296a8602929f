/** The iterator of list.c: a walk over a range of buckets that may mark elements,
    which are unlinked when the walk leaves their bucket. */
module HashIterators {
  import opened Bits
  import opened HashTables
  import opened Options

  /** A chain, some of whose elements have lost their key. */
  ghost predicate Masked<K(!new), V>(chain: seq<Element<K, V>>, full: seq<Element<K, V>>, marked: set<K>) {
    && |chain| == |full|
    && (forall i :: 0 <= i < |full| ==> full[i].key.Some?)
    && (forall i :: 0 <= i < |full| ==>
          chain[i] == if full[i].key.value in marked then full[i].(key := None) else full[i])
    && (forall k :: k in marked ==> InChain(full, k))
  }

  /** seen holds the keys of a map that lie in buckets start to frontier - 1, and
      those of the part of the next chain that has been walked. */
  ghost predicate Walked<K(!new), V>(seen: set<K>, m: map<K, V>, hash: K -> nat, mask: nat, start: int, frontier: int,
                                     walked: seq<Element<K, V>>) {
    forall k :: k in seen <==>
      k in m && start <= And(hash(k), mask) && (And(hash(k), mask) < frontier || InChain(walked, k))
  }

  /** Returning one more element of a chain. */
  lemma WalkedOneMore<K(!new), V>(seen: set<K>, m: map<K, V>, hash: K -> nat, mask: nat, start: int, frontier: int,
                                  full: seq<Element<K, V>>, pos: nat, contents: map<K, V>)
    requires pos < |full| && start <= frontier && Walked(seen, m, hash, mask, start, frontier, full[..pos])
    requires Represents(full, contents, hash, mask, frontier)
    requires forall k :: k in contents ==> k in m && m[k] == contents[k]
    ensures var e := full[pos];
            && e.key.Some? && e.key.value !in seen && e.key.value in m && m[e.key.value] == e.value
            && And(hash(e.key.value), mask) == frontier
            && Walked(seen + {e.key.value}, m, hash, mask, start, frontier, full[..pos + 1])
  {
    assert IsEntry(full[pos], contents, hash, mask, frontier);
    var before, after := full[..pos], full[..pos + 1];
    var k := full[pos].key.value;
    assert !InChain(before, k);
    forall x
      ensures InChain(after, x) <==> InChain(before, x) || x == k
    {
      if InChain(before, x) {
        var i :| 0 <= i < |before| && before[i].key == Some(x);
        assert after[i].key == Some(x);
      }
      assert after[pos].key == Some(k);
      if InChain(after, x) && x != k {
        var i :| 0 <= i < |after| && after[i].key == Some(x);
        assert before[i].key == Some(x);
      }
    }
  }

  /** A chain that has been walked whole is a bucket done. */
  lemma WalkedBucket<K(!new), V>(seen: set<K>, m: map<K, V>, hash: K -> nat, mask: nat, start: int, frontier: int,
                                 full: seq<Element<K, V>>, contents: map<K, V>,
                                 deleted: set<K>, marked: set<K>)
    requires Walked(seen, m, hash, mask, start, frontier, full) && start <= frontier
    requires Represents(full, contents, hash, mask, frontier)
    requires IsLeft(contents, m, deleted, marked) && deleted <= seen
    ensures Walked(seen, m, hash, mask, start, frontier + 1, [])
  {
    var none: seq<Element<K, V>> := [];
    forall k
      ensures k in seen <==>
              k in m && start <= And(hash(k), mask) && (And(hash(k), mask) < frontier + 1 || InChain(none, k))
    {
      if InChain(full, k) {
        var i :| 0 <= i < |full| && full[i].key == Some(k);
        assert IsEntry(full[i], contents, hash, mask, frontier);
      }
    }
  }

  lemma MaskedOneMore<K(!new), V>(chain: seq<Element<K, V>>, full: seq<Element<K, V>>, marked: set<K>, i: nat)
    requires Masked(chain, full, marked) && i < |full|
    requires forall i, j :: 0 <= i < j < |full| ==> full[i].key != full[j].key
    ensures Masked(chain[i := chain[i].(key := None)], full, marked + {full[i].key.value})
  {
    assert InChain(full, full[i].key.value);
  }

  lemma NothingMasked<K(!new), V>(full: seq<Element<K, V>>, m: map<K, V>, hash: K -> nat, mask: nat, b: int)
    requires Represents(full, m, hash, mask, b)
    ensures Masked(full, full, {})
  {
    assert forall i :: 0 <= i < |full| ==> IsEntry(full[i], m, hash, mask, b);
  }

  ghost predicate KeptBefore<K, V>(chain: seq<Element<K, V>>, n: nat) {
    forall i :: 0 <= i < n && i < |chain| ==> chain[i].key.Some?
  }

  lemma NoneMarked<K(!new), V>(chain: seq<Element<K, V>>, full: seq<Element<K, V>>, marked: set<K>)
    requires Masked(chain, full, marked) && KeptBefore(chain, |chain|)
    ensures marked == {} && chain == full
  {
    assert forall i :: 0 <= i < |full| ==> full[i].key.value !in marked;
    assert chain == full;
  }

  lemma NoneMasked<K(!new), V>(chain: seq<Element<K, V>>, full: seq<Element<K, V>>)
    requires Masked(chain, full, {})
    ensures chain == full
  {
  }

  lemma KeepNone<K, V>(chain: seq<Element<K, V>>)
    ensures KeptBefore(chain, 0)
  {
  }

  lemma KeepOne<K, V>(chain: seq<Element<K, V>>, i: nat)
    requires i < |chain| && KeptBefore(chain, i) && chain[i].key.Some?
    ensures KeptBefore(chain, i + 1)
  {
  }

  lemma KeptWithout<K(!new), V>(chain: seq<Element<K, V>>, i: nat)
    requires i < |chain| && KeptBefore(chain, i)
    ensures KeptBefore(Unlinked(chain, i), i)
  {
  }

  lemma MaskedWithout<K(!new), V>(chain: seq<Element<K, V>>, full: seq<Element<K, V>>, marked: set<K>, i: nat,
                                  m: map<K, V>, hash: K -> nat, mask: nat, b: int) returns (k: K)
    requires Masked(chain, full, marked) && i < |chain| && chain[i].key.None? && Represents(full, m, hash, mask, b)
    ensures i < |full| && full[i].key == Some(k) && k in marked && k in m && And(hash(k), mask) == b
    ensures Masked(Unlinked(chain, i), Unlinked(full, i), marked - {k})
  {
    hide And;
    assert IsEntry(full[i], m, hash, mask, b);
    k := full[i].key.value;
    var rest := Unlinked(full, i);
    forall x | x in marked - {k}
      ensures InChain(rest, x)
    {
      var j :| 0 <= j < |full| && full[j].key == Some(x);
      assert rest[if j < i then j else j - 1].key == Some(x);
    }
  }

  /** Of all the marked elements of a map so many are left. */
  ghost predicate Removing<K, V>(contents: map<K, V>, marked: set<K>, before: map<K, V>, all: set<K>) {
    marked <= all && contents == before - (all - marked)
  }

  lemma RemovedNone<K, V>(m: map<K, V>, all: set<K>)
    ensures Removing(m, all, m, all)
  {
  }

  lemma RemovedAll<K, V>(contents: map<K, V>, before: map<K, V>, all: set<K>)
    requires Removing(contents, {}, before, all)
    ensures contents == before - all
  {
    assert all - {} == all;
  }

  lemma RemovedOneMore<K, V>(contents: map<K, V>, marked: set<K>, before: map<K, V>, all: set<K>, k: K)
    requires Removing(contents, marked, before, all) && k in marked
    ensures Removing(contents - {k}, marked - {k}, before, all)
  {
  }

  lemma EntryIsThere<K(!new), V>(full: seq<Element<K, V>>, i: nat, m: map<K, V>, hash: K -> nat, mask: nat, b: int)
    requires Represents(full, m, hash, mask, b) && i < |full|
    ensures full[i].key.Some? && full[i].key.value in m
  {
    assert IsEntry(full[i], m, hash, mask, b);
  }

  /** A map without the deleted keys, of which the marked ones are still there. */
  ghost predicate IsLeft<K, V>(contents: map<K, V>, m: map<K, V>, deleted: set<K>, marked: set<K>) {
    marked <= deleted && contents == m - (deleted - marked)
  }

  lemma LeftIsThere<K(!new), V>(contents: map<K, V>, m: map<K, V>, deleted: set<K>, marked: set<K>)
    requires IsLeft(contents, m, deleted, marked)
    ensures forall k :: k in contents ==> k in m && m[k] == contents[k]
  {
  }

  /** An element whose key was not seen is not marked. */
  lemma UnseenIsUnmarked<K(!new), V>(chain: seq<Element<K, V>>, full: seq<Element<K, V>>, i: nat,
                                     contents: map<K, V>, m: map<K, V>, seen: set<K>, deleted: set<K>, marked: set<K>)
    requires Masked(chain, full, marked) && IsLeft(contents, m, deleted, marked) && deleted <= seen
    requires i < |full| && full[i].key.Some? && full[i].key.value !in seen
    ensures chain[i] == full[i] && |chain| == |full|
  {
  }

  lemma OneLess<K, V>(m: map<K, V>, k: K)
    requires k in m
    ensures |m - {k}| == |m| - 1
  {
    assert (m - {k}).Keys == m.Keys - {k};
  }

  lemma MarkedOneMore<K, V>(contents: map<K, V>, m: map<K, V>, deleted: set<K>, marked: set<K>, k: K)
    requires IsLeft(contents, m, deleted, marked) && k in contents
    ensures IsLeft(contents, m, deleted + {k}, marked + {k})
  {
    assert deleted + {k} - (marked + {k}) == deleted - marked;
  }

  lemma RemovedRest<K, V>(contents: map<K, V>, m: map<K, V>, deleted: set<K>, marked: set<K>)
    requires IsLeft(contents, m, deleted, marked)
    ensures contents - marked == m - deleted && IsLeft(contents - marked, m, deleted, {})
  {
    assert deleted - marked + marked == deleted - {} == deleted;
  }

  /** Of the keys seen, other than a pending one, exactly the doomed are deleted. */
  ghost predicate Decided<K(!new), V>(seen: set<K>, deleted: set<K>, m: map<K, V>, doomed: (K, V) -> bool,
                                      pending: Option<K>) {
    && deleted <= seen <= m.Keys
    && (forall k :: k in seen && pending != Some(k) ==> (k in deleted <==> doomed(k, m[k])))
    && (pending.Some? ==> pending.value in seen && pending.value !in deleted)
  }

  lemma Decide<K(!new), V>(seen: set<K>, deleted: set<K>, m: map<K, V>, doomed: (K, V) -> bool, k: K)
    requires Decided(seen, deleted, m, doomed, Some(k))
    ensures Decided(seen, if doomed(k, m[k]) then deleted + {k} else deleted, m, doomed, None)
  {
  }

  lemma SeeOneMore<K(!new), V>(seen: set<K>, deleted: set<K>, m: map<K, V>, doomed: (K, V) -> bool, k: K)
    requires Decided(seen, deleted, m, doomed, None) && k in m && k !in seen
    ensures Decided(seen + {k}, deleted, m, doomed, Some(k))
    ensures |m.Keys - seen| == |m.Keys - (seen + {k})| + 1
  {
    assert m.Keys - seen == m.Keys - (seen + {k}) + {k};
  }

  lemma DecideNone<K(!new), V>(m: map<K, V>, doomed: (K, V) -> bool)
    ensures Decided({}, {}, m, doomed, None)
  {
  }

  class HashIterator<K(==, !new), V> {
    const table: HashTable<K, V>
    const bucketIndexStart: int
    const bucketIndexEnd: int
    var bucketIndex: int
    var bucket: int         // the locked bucket, or -1
    var elem: int           // position in the locked chain of the next element, or -1
    var last: int           // position of the element returned last, or -1
    var bucketMarked: bool

    ghost const snapshot: map<K, V>        // the table when the walk began
    ghost var full: seq<Element<K, V>>     // the locked chain with all its keys
    ghost var marked: set<K>               // keys marked in the locked chain
    ghost var deleted: set<K>              // keys marked in the whole walk
    ghost var seen: set<K>                 // keys returned
    ghost var frontier: int                // buckets below this one are done

    ghost function Pos(): nat
      reads this`elem, this`full
    {
      if elem >= 0 then elem else |full|
    }

    ghost function WalkedPart(): seq<Element<K, V>>
      reads this`elem, this`full
    {
      if 0 <= elem < |full| then full[..elem] else full
    }

    ghost predicate InRange(k: K) {
      bucketIndexStart <= table.BucketOf(k) < bucketIndexEnd
    }

    /** The table as it would be if the marked elements had kept their keys. */
    ghost predicate TableValid()
      reads this`bucket, this`full, this`marked, this`bucketMarked, table, table.buckets
    {
      && table.Shape()
      && table.nElements == |table.contents|
      && (forall b :: 0 <= b < table.buckets.Length && b != bucket ==>
            Represents(table.buckets[b], table.contents, table.hash, table.mask, b))
      && (if bucket >= 0 then
            && bucket < table.buckets.Length
            && Represents(full, table.contents, table.hash, table.mask, bucket)
            && Masked(table.buckets[bucket], full, marked)
            && (marked != {} ==> bucketMarked)
          else marked == {})
    }

    /** Where the walk is, in or just after the bucket at index. */
    ghost predicate PlaceValid(index: int)
      reads this`frontier, this`elem, this`last, this`bucket, this`full
    {
      && 0 <= bucketIndexStart <= frontier <= bucketIndexEnd <= table.buckets.Length
      && -1 <= elem < |full| && -1 <= last < |full|
      && (elem >= 0 ==> bucket >= 0)
      && (last >= 0 ==> bucket >= 0 && last < Pos())
      && (bucket >= 0 ==> frontier == bucket && bucket <= index && (elem >= 0 ==> index == bucket)
                          && bucket < bucketIndexEnd && (index == bucket || bucket == bucketIndexEnd - 1))
      && (bucket < 0 ==> full == [] && (frontier == index + 1 || (index >= bucketIndexEnd == frontier)))
    }

    /** The keys returned so far are those of the part walked. */
    ghost predicate SeenValid()
      reads this`seen, this`deleted, this`marked, this`frontier, this`elem, this`last, this`full, table`contents
    {
      && Walked(seen, snapshot, table.hash, table.mask, bucketIndexStart, frontier, WalkedPart())
      && deleted <= seen
      && (last >= 0 ==> last < |full| && full[last].key.Some? && full[last].key.value in seen)
      && IsLeft(table.contents, snapshot, deleted, marked)
    }

    ghost predicate Valid()
      reads this, table, table.buckets
    {
      TableValid() && PlaceValid(bucketIndex) && SeenValid()
    }

    /** hash_iterator_init_range; the source asserts the bounds. */
    constructor (table: HashTable<K, V>, startBucket: int, endBucket: int)
      requires table.Valid() && 0 <= startBucket <= endBucket && startBucket <= table.buckets.Length
      ensures Valid() && this.table == table && snapshot == table.contents && seen == {} && deleted == {}
      ensures bucketIndexStart == startBucket
      ensures bucketIndexEnd == if endBucket > table.buckets.Length then table.buckets.Length else endBucket
    {
      this.table, bucketIndexStart := table, startBucket;
      bucketIndexEnd := if endBucket > table.buckets.Length then table.buckets.Length else endBucket;
      bucketIndex, bucket, elem, last, bucketMarked := startBucket - 1, -1, -1, -1, false;
      snapshot, full, marked, deleted, seen, frontier := table.contents, [], {}, {}, {}, startBucket;
    }

    lemma AllKept()
      requires TableValid() && bucket >= 0 && KeptBefore(table.buckets[bucket], |table.buckets[bucket]|)
      ensures marked == {}
    {
      hide Masked, KeptBefore, Represents;
      NoneMarked(table.buckets[bucket], full, marked);
    }

    /** hash_remove_marked */
    method RemoveMarked()
      requires TableValid() && bucket >= 0
      modifies this`full, this`marked, table`nElements, table`contents, table.buckets
      ensures TableValid() && marked == {}
      ensures table.contents == old(table.contents) - old(marked)
    {
      hide table.Shape, Masked, Represents, KeptBefore, Removing;
      ghost var before, all := table.contents, marked;
      RemovedNone(before, all);
      var i := 0;
      KeepNone(table.buckets[bucket]);
      while i < |table.buckets[bucket]|
        invariant TableValid() && i <= |table.buckets[bucket]|
        invariant Removing(table.contents, marked, before, all)
        invariant KeptBefore(table.buckets[bucket], i)
        decreases |table.buckets[bucket]| - i
      {
        if table.buckets[bucket][i].key.None? {
          ghost var chain, contents, pending := table.buckets[bucket], table.contents, marked;
          ghost var k := UnlinkAt(i);
          KeptWithout(chain, i);
          RemovedOneMore(contents, pending, before, all, k);
        } else {
          KeepOne(table.buckets[bucket], i);
          i := i + 1;
        }
      }
      AllKept();
      RemovedAll(table.contents, before, all);
    }

    /** The other buckets do not have a key of the locked one. */
    lemma OthersRepresent(k: K)
      requires TableValid() && k in table.contents && table.BucketOf(k) == bucket
      ensures forall c :: 0 <= c < table.buckets.Length && c != bucket ==>
                Represents(table.buckets[c], table.contents - {k}, table.hash, table.mask, c)
    {
      hide table.Shape, Masked, Represents, And;
      forall c | 0 <= c < table.buckets.Length && c != bucket {
        RemoveRepresents(table.buckets[c], 0, k, table.contents, table.hash, table.mask, c);
      }
    }

    /** What is left when the marked element at a position has gone. */
    lemma LeftBehind(i: nat) returns (k: K)
      requires TableValid() && bucket >= 0 && i < |table.buckets[bucket]| && table.buckets[bucket][i].key.None?
      ensures i < |full| && k in marked && k in table.contents
      ensures Masked(Unlinked(table.buckets[bucket], i), Unlinked(full, i), marked - {k})
      ensures Represents(Unlinked(full, i), table.contents - {k}, table.hash, table.mask, bucket)
      ensures forall c :: 0 <= c < table.buckets.Length && c != bucket ==>
                Represents(table.buckets[c], table.contents - {k}, table.hash, table.mask, c)
      ensures |table.contents - {k}| == |table.contents| - 1
    {
      hide table.Shape, And, Masked, Represents, Unlinked;
      k := MaskedWithout(table.buckets[bucket], full, marked, i, table.contents, table.hash, table.mask, bucket);
      OneLess(table.contents, k);
      OthersRepresent(k);
      RemoveRepresents(full, i, k, table.contents, table.hash, table.mask, bucket);
    }

    /** Take the marked element at a position out of its chain. */
    method UnlinkAt(i: nat) returns (ghost k: K)
      requires TableValid() && bucket >= 0 && i < |table.buckets[bucket]| && table.buckets[bucket][i].key.None?
      modifies this`full, this`marked, table`nElements, table`contents, table.buckets
      ensures TableValid() && table.buckets[bucket] == Unlinked(old(table.buckets[bucket]), i)
      ensures k in old(marked) && marked == old(marked) - {k} && table.contents == old(table.contents) - {k}
    {
      hide table.Shape, Masked, Represents, Unlinked;
      k := LeftBehind(i);
      table.buckets[bucket] := Unlinked(table.buckets[bucket], i);
      table.nElements := table.nElements - 1;
      full, marked, table.contents := Unlinked(full, i), marked - {k}, table.contents - {k};
    }

    /** hash_iterator_unlock */
    method Unlock()
      requires TableValid()
      modifies this`full, this`marked, this`bucket, this`last, this`bucketMarked, this`frontier
      modifies table`nElements, table`contents, table.buckets
      ensures TableValid() && bucket < 0 && marked == {}
      ensures if old(bucket) >= 0 then full == [] && last == -1 && frontier == old(bucket) + 1
              else full == old(full) && last == old(last) && frontier == old(frontier)
      ensures table.contents == old(table.contents) - old(marked)
    {
      hide table.Shape, InChain, IsEntry, And;
      if bucket >= 0 {
        if bucketMarked {
          RemoveMarked();
          bucketMarked := false;
        }
        NoneMasked(table.buckets[bucket], full);
        bucket, last, full, frontier := -1, -1, [], bucket + 1;
      }
    }

    lemma NotLocked()
      requires TableValid() && bucket < 0
      ensures table.Valid()
    {
    }

    lemma SeenIsLeft()
      requires SeenValid()
      ensures IsLeft(table.contents, snapshot, deleted, marked) && deleted <= seen
    {
    }

    /** What the place says about the element returned last and the next bucket. */
    lemma Place(index: int)
      requires PlaceValid(index)
      ensures last >= 0 ==> bucket >= 0 && last < |full|
      ensures 0 <= index + 1 && bucketIndexEnd <= table.buckets.Length
      ensures bucket < 0 && index + 1 < bucketIndexEnd ==> frontier == index + 1
    {
    }

    lemma PlaceAtEnd(index: int)
      requires PlaceValid(index - 1) && index >= bucketIndexEnd && elem < 0
      ensures PlaceValid(index)
    {
    }

    /** hash_iterator_free: exactly the elements marked for deletion are gone. */
    method Free()
      requires Valid()
      modifies this`full, this`marked, this`bucket, this`last, this`bucketMarked, this`frontier
      modifies table`nElements, table`contents, table.buckets
      ensures table.Valid() && table.contents == snapshot - deleted
    {
      SeenIsLeft();
      hide TableValid, PlaceValid, SeenValid;
      RemovedRest(table.contents, snapshot, deleted, marked);
      Unlock();
      NotLocked();
    }

    /** Take the key off an element of the locked chain. */
    method Mark(i: int)
      requires TableValid() && bucket >= 0 && 0 <= i < |full|
      modifies this`bucketMarked, this`marked, table.buckets
      ensures TableValid() && full[i].key.Some? && full[i].key.value in table.contents
      ensures marked == old(marked) + {full[i].key.value}
    {
      hide table.Shape, InChain, IsEntry, And;
      EntryIsThere(full, i, table.contents, table.hash, table.mask, bucket);
      MaskedOneMore(table.buckets[bucket], full, marked, i);
      table.buckets[bucket] := table.buckets[bucket][i := table.buckets[bucket][i].(key := None)];
      bucketMarked := true;
      marked := marked + {full[i].key.value};
    }

    /** hash_iterator_delete_element, for the element returned last. */
    method DeleteElement()
      requires Valid() && last >= 0
      modifies this`bucketMarked, this`marked, this`deleted, table.buckets
      ensures Valid() && deleted == old(deleted) + {full[last].key.value}
    {
      hide table.Shape, InChain, IsEntry, And, Walked, IsLeft, Masked, Represents, TableValid;
      ghost var k, before := full[last].key.value, marked;
      Mark(last);
      MarkedOneMore(table.contents, snapshot, deleted, before, k);
      deleted := deleted + {k};
    }

    /** hash_iterator_lock, with the iterator set to the first element of the chain. */
    method Lock()
      requires TableValid() && SeenValid() && PlaceValid(bucketIndex - 1)
      requires bucket < 0 && frontier == bucketIndex < bucketIndexEnd && |table.buckets[bucketIndex]| > 0
      modifies this`full, this`bucket, this`last, this`bucketMarked, this`elem
      ensures Valid() && elem == 0
    {
      hide table.Shape, InChain, IsEntry, And, Walked, Masked, Represents, IsLeft;
      bucket, last, bucketMarked := bucketIndex, -1, false;
      elem, full := 0, table.buckets[bucketIndex];
      NothingMasked(full, table.contents, table.hash, table.mask, bucket);
    }

    /** A walk at the end of a chain has seen the bucket whole. */
    lemma WholeBucket(index: int)
      requires TableValid() && SeenValid() && PlaceValid(index) && elem < 0 && bucket >= 0
      ensures Walked(seen, snapshot, table.hash, table.mask, bucketIndexStart, frontier + 1, [])
    {
      hide table.Shape, InChain, IsEntry, And, Walked, Masked, Represents, IsLeft;
      WalkedBucket(seen, snapshot, table.hash, table.mask, bucketIndexStart, frontier, full, table.contents,
                   deleted, marked);
    }

    /** Unlock, where the walk has come to the end of a chain. */
    method LeaveBucket()
      requires TableValid() && SeenValid() && PlaceValid(bucketIndex - 1)
      requires elem < 0 && bucket >= 0 && bucketIndex < bucketIndexEnd
      modifies this`full, this`marked, this`bucket, this`last, this`bucketMarked, this`frontier
      modifies table`nElements, table`contents, table.buckets
      ensures TableValid() && SeenValid() && PlaceValid(bucketIndex - 1) && bucket < 0 && frontier == bucketIndex
    {
      hide And, Walked, IsLeft, TableValid;
      WholeBucket(bucketIndex - 1);
      RemovedRest(table.contents, snapshot, deleted, marked);
      Unlock();
    }

    /** An empty bucket is done. */
    ghost method PassEmpty()
      requires TableValid() && SeenValid() && PlaceValid(bucketIndex - 1)
      requires bucket < 0 && frontier == bucketIndex < bucketIndexEnd && |table.buckets[bucketIndex]| == 0
      modifies this`frontier
      ensures TableValid() && SeenValid() && PlaceValid(bucketIndex) && frontier == bucketIndex + 1
    {
      hide table.Shape, InChain, IsEntry, And, Walked, Masked, Represents, IsLeft;
      WalkedBucket(seen, snapshot, table.hash, table.mask, bucketIndexStart, frontier, full, table.contents,
                     deleted, marked);
      frontier := bucketIndex + 1;
    }

    /** Return the next element of the locked chain and step over it. */
    method Take() returns (he: Element<K, V>)
      requires Valid() && elem >= 0
      modifies this`elem, this`last, this`seen
      ensures Valid() && 0 <= last < |full| && he == full[last]
      ensures he.key.Some? && he.key.value !in old(seen) && seen == old(seen) + {he.key.value}
      ensures he.key.value in snapshot && snapshot[he.key.value] == he.value && InRange(he.key.value)
    {
      hide table.Shape, InChain, IsEntry, And, Walked, Represents, Masked, IsLeft;
      LeftIsThere(table.contents, snapshot, deleted, marked);
      WalkedOneMore(seen, snapshot, table.hash, table.mask, bucketIndexStart, frontier, full, elem, table.contents);
      UnseenIsUnmarked(table.buckets[bucket], full, elem, table.contents, snapshot, seen, deleted, marked);
      he := table.buckets[bucket][elem];
      last := elem;
      elem := if elem + 1 < |table.buckets[bucket]| then elem + 1 else -1;
      seen := seen + {full[last].key.value};
      assert full[..last + 1] == WalkedPart();
    }

    /** hash_iterator_next: an element of the range that was not returned before, or
        none when all have been. */
    method Next() returns (ret: Option<Element<K, V>>)
      requires Valid()
      modifies this, table`nElements, table`contents, table.buckets
      ensures Valid() && deleted == old(deleted)
      ensures ret.Some? ==>
                && 0 <= last < |full| && ret.value == full[last] && ret.value.key.Some?
                && var k := ret.value.key.value;
                   && k !in old(seen) && seen == old(seen) + {k}
                   && InRange(k) && k in snapshot && snapshot[k] == ret.value.value
      ensures ret.None? ==> seen == old(seen) && forall k :: k in seen <==> k in snapshot && InRange(k)
    {
      hide TableValid, SeenValid, PlaceValid;
      ret := None;
      if elem >= 0 {
        var he := Take();
        return Some(he);
      }
      bucketIndex := bucketIndex + 1;
      while bucketIndex < bucketIndexEnd
        invariant TableValid() && SeenValid() && PlaceValid(bucketIndex - 1) && elem < 0
        invariant seen == old(seen) && deleted == old(deleted)
        decreases bucketIndexEnd - bucketIndex
      {
        Place(bucketIndex - 1);
        if bucket >= 0 {
          LeaveBucket();
        }
        if |table.buckets[bucketIndex]| > 0 {
          Lock();
          var he := Take();
          return Some(he);
        }
        PassEmpty();
        bucketIndex := bucketIndex + 1;
      }
      PlaceAtEnd(bucketIndex);
      AllSeen();
    }

    ghost function Unseen(): nat
      reads this`seen
    {
      |snapshot.Keys - seen|
    }

    /** A walk that deletes what is doomed; he is the element to decide next. */
    ghost predicate Walking(he: Option<Element<K, V>>, doomed: (K, V) -> bool)
      reads this, table
    {
      match he
      case Some(e) =>
        && 0 <= last < |full| && e == full[last] && e.key.Some?
        && e.key.value in snapshot && e.value == snapshot[e.key.value]
        && Decided(seen, deleted, snapshot, doomed, e.key)
      case None =>
        Decided(seen, deleted, snapshot, doomed, None) && forall k :: k in seen <==> k in snapshot && InRange(k)
    }

    /** hash_iterator_next in such a walk. */
    method NextToDecide(ghost doomed: (K, V) -> bool) returns (he: Option<Element<K, V>>)
      requires Valid() && Decided(seen, deleted, snapshot, doomed, None)
      modifies this, table`nElements, table`contents, table.buckets
      ensures Valid() && Walking(he, doomed)
      ensures if he.Some? then Unseen() < old(Unseen()) else Unseen() == old(Unseen())
    {
      hide TableValid, PlaceValid, SeenValid, Decided;
      he := Next();
      if he.Some? {
        SeeOneMore(old(seen), deleted, snapshot, doomed, he.value.key.value);
      }
    }

    /** After such a walk the doomed elements of the range are those to go. */
    lemma WalkDecided(doomed: (K, V) -> bool)
      requires Walking(None, doomed)
      ensures forall k :: k in snapshot - deleted <==> k in snapshot && !(InRange(k) && doomed(k, snapshot[k]))
    {
    }

    lemma WholeTableDecided(doomed: (K, V) -> bool)
      requires Walking(None, doomed) && table.Shape() && bucketIndexStart == 0 && bucketIndexEnd == table.buckets.Length
      ensures forall k :: k in snapshot - deleted <==> k in snapshot && !doomed(k, snapshot[k])
    {
      WalkDecided(doomed);
      forall k {
        table.BucketExists(k);
      }
    }

    /** At the end of the walk all the range has been seen. */
    lemma AllSeen()
      requires Valid() && elem < 0 && bucketIndex >= bucketIndexEnd
      ensures forall k :: k in seen <==> k in snapshot && InRange(k)
    {
      hide table.Shape, IsEntry, And, Masked, Represents, IsLeft;
      if bucket >= 0 {
        WholeBucket(bucketIndex);
      }
    }
  }

  /** The walk of hash_remove_by_value. */
  method MarkValue<K(==, !new), V(==)>(hi: HashIterator<K, V>, value: V)
    requires hi.Valid() && hi.seen == hi.deleted == {}
    modifies hi, hi.table`nElements, hi.table`contents, hi.table.buckets
    ensures hi.Valid() && hi.Walking(None, (k: K, v: V) => v == value)
  {
    hide hi.TableValid, hi.PlaceValid, hi.SeenValid, hi.Unseen, Decided;
    ghost var doomed := (k: K, v: V) => v == value;
    DecideNone(hi.snapshot, doomed);
    var he := hi.NextToDecide(doomed);
    while he.Some?
      invariant hi.Valid() && hi.Walking(he, doomed)
      decreases hi.Unseen(), he.Some?
    {
      Decide(hi.seen, hi.deleted, hi.snapshot, doomed, he.value.key.value);
      if he.value.value == value {
        hi.DeleteElement();
      }
      he := hi.NextToDecide(doomed);
    }
  }

  /** hash_remove_by_value */
  method RemoveByValue<K(==, !new), V(==)>(table: HashTable<K, V>, value: V)
    requires table.Valid()
    modifies table`nElements, table`contents, table.buckets
    ensures table.Valid()
    ensures forall k :: k in table.contents <==> k in old(table.contents) && old(table.contents)[k] != value
    ensures forall k :: k in table.contents ==> table.contents[k] == old(table.contents)[k]
  {
    hide HashIterator.TableValid, HashIterator.PlaceValid, HashIterator.SeenValid, HashIterator.Walking;
    var hi := new HashIterator(table, 0, table.buckets.Length);
    MarkValue(hi, value);
    hi.WholeTableDecided((k: K, v: V) => v == value);
    hi.Free();
  }
}
