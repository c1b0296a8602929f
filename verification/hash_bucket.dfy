/** The chain of a hash bucket as the program links it: what the pointer updates of
    list.c do to the sequence of elements that HashTables reasons about. */
module HashBuckets {
  import opened Bits
  import opened HashTables
  import opened Options

  /** Where the walk for a key stops; the length of the chain if it is not found. */
  function Position<K(==), V>(chain: seq<Element<K, V>>, key: K, hv: nat): (i: nat)
    ensures i <= |chain|
  {
    if chain == [] || (chain[0].hashValue == hv && chain[0].key == Some(key)) then 0
    else Position(chain[1..], key, hv) + 1
  }

  lemma {:induction false} PositionIs<K, V>(chain: seq<Element<K, V>>, key: K, hv: nat, i: nat)
    requires i <= |chain|
    requires forall j :: 0 <= j < i ==> !(chain[j].hashValue == hv && chain[j].key == Some(key))
    requires i < |chain| ==> chain[i].hashValue == hv && chain[i].key == Some(key)
    ensures Position(chain, key, hv) == i
  {
    if i > 0 {
      PositionIs(chain[1..], key, hv, i - 1);
    }
  }

  lemma {:induction false} PositionStops<K, V>(chain: seq<Element<K, V>>, key: K, hv: nat)
    ensures var i := Position(chain, key, hv);
            && (i < |chain| ==> chain[i].hashValue == hv && chain[i].key == Some(key))
            && forall j :: 0 <= j < i ==> !(chain[j].hashValue == hv && chain[j].key == Some(key))
  {
    if chain != [] && !(chain[0].hashValue == hv && chain[0].key == Some(key)) {
      PositionStops(chain[1..], key, hv);
      assert forall j :: 1 <= j < |chain| ==> chain[j] == chain[1..][j - 1];
    }
  }

  /** In the chain of a table the walk stops at the entry of the key, if it has one:
      what the bucket does there is what the table does to its map. */
  lemma PositionInTable<K(!new), V>(chain: seq<Element<K, V>>, m: map<K, V>, hash: K -> nat, mask: nat, b: int, key: K)
    requires Represents(chain, m, hash, mask, b) && And(hash(key), mask) == b
    ensures var i := Position(chain, key, hash(key));
            && (i < |chain| <==> key in m)
            && (i < |chain| ==>
                  && chain[i] == Element(Some(key), m[key], hash(key))
                  && Represents(Fronted(chain, i), m, hash, mask, b)
                  && Represents(Unlinked(chain, i), m - {key}, hash, mask, b))
  {
    hide And;
    var i := Position(chain, key, hash(key));
    PositionStops(chain, key, hash(key));
    assert forall j :: 0 <= j < |chain| ==> IsEntry(chain[j], m, hash, mask, b);
    if i < |chain| {
      FrontRepresents(chain, i, m, hash, mask, b);
      RemoveRepresents(chain, i, key, m, hash, mask, b);
    }
  }

  /** The elements that have not been marked. */
  function Unmarked<K, V>(chain: seq<Element<K, V>>): (r: seq<Element<K, V>>)
    ensures |r| <= |chain|
  {
    if chain == [] then [] else (if chain[0].key.Some? then [chain[0]] else []) + Unmarked(chain[1..])
  }

  lemma {:induction false} UnmarkedMore<K, V>(chain: seq<Element<K, V>>, n: nat)
    requires n < |chain|
    ensures Unmarked(chain[..n + 1]) == Unmarked(chain[..n]) + (if chain[n].key.Some? then [chain[n]] else [])
  {
    var longer, shorter := chain[..n + 1], chain[..n];
    if n == 0 {
      assert longer == [chain[0]] && longer[1..] == [];
    } else {
      UnmarkedMore(chain[1..], n - 1);
      assert longer[1..] == chain[1..][..n] && shorter[1..] == chain[1..][..n - 1];
      var last := if chain[n].key.Some? then [chain[n]] else [];
      var first := if chain[0].key.Some? then [chain[0]] else [];
      assert first + (Unmarked(shorter[1..]) + last) == first + Unmarked(shorter[1..]) + last;
    }
  }

  /** The first i elements of c have been dealt with, and k of them stay. */
  ghost predicate Cleaned<K(!new), V>(chain: seq<Element<K, V>>, k: nat, c: seq<Element<K, V>>, i: nat) {
    k <= |chain| && i <= |c| && chain[..k] == Unmarked(c[..i]) && chain[k..] == c[i..]
  }

  lemma CleanedStart<K(!new), V>(c: seq<Element<K, V>>)
    ensures Cleaned(c, 0, c, 0)
  {
    assert c[..0] == [];
  }

  lemma CleanedStep<K(!new), V>(chain: seq<Element<K, V>>, k: nat, c: seq<Element<K, V>>, i: nat)
    requires Cleaned(chain, k, c, i) && k < |chain|
    ensures i < |c| && chain[k] == c[i]
    ensures if c[i].key.None? then Cleaned(Unlinked(chain, k), k, c, i + 1) else Cleaned(chain, k + 1, c, i + 1)
  {
    hide Unmarked;
    assert chain[k..][0] == c[i..][0] && chain[k..][1..] == c[i..][1..];
    UnmarkedMore(c, i);
    assert chain[k + 1..] == c[i + 1..];
    if c[i].key.None? {
      assert Unlinked(chain, k)[..k] == chain[..k] && Unlinked(chain, k)[k..] == chain[k + 1..];
    } else {
      assert chain[..k + 1] == chain[..k] + [chain[k]];
    }
  }

  lemma CleanedEnd<K(!new), V>(chain: seq<Element<K, V>>, k: nat, c: seq<Element<K, V>>, i: nat)
    requires Cleaned(chain, k, c, i)
    ensures |chain| - k == |c| - i && k <= |chain|
    ensures k == |chain| ==> chain == Unmarked(c)
  {
    hide Unmarked;
    assert |chain[k..]| == |c[i..]|;
    if k == |chain| {
      assert chain[..k] == chain && c[..i] == c;
    }
  }

  class HashElement<K, V> {
    var content: Element<K, V>
    var next: HashElement?<K, V>

    constructor (content: Element<K, V>, next: HashElement?<K, V>)
      ensures this.content == content && this.next == next
    {
      this.content, this.next := content, next;
    }
  }

  ghost function Contents<K, V>(nodes: seq<HashElement<K, V>>): (c: seq<Element<K, V>>)
    reads nodes`content
    ensures |c| == |nodes|
    ensures forall i :: 0 <= i < |nodes| ==> c[i] == nodes[i].content
  {
    if nodes == [] then [] else [nodes[0].content] + Contents(nodes[1..])
  }

  lemma ContentsPushed<K, V>(he: HashElement<K, V>, nodes: seq<HashElement<K, V>>)
    ensures Contents([he] + nodes) == [he.content] + Contents(nodes)
  {
    assert ([he] + nodes)[1..] == nodes;
  }

  lemma ContentsUnlinked<K, V>(nodes: seq<HashElement<K, V>>, i: nat)
    requires i < |nodes|
    ensures Contents(Unlinked(nodes, i)) == Unlinked(Contents(nodes), i)
  {
    hide Contents, Unlinked;
  }

  lemma ContentsMoved<K, V>(nodes: seq<HashElement<K, V>>, i: nat)
    requires i < |nodes|
    ensures Contents(Fronted(nodes, i)) == Fronted(Contents(nodes), i)
  {
    hide Contents, Fronted;
  }

  ghost function NodeAt<K, V>(nodes: seq<HashElement<K, V>>, k: int): HashElement?<K, V> {
    if 0 <= k < |nodes| then nodes[k] else null
  }

  class HashBucket<K(==, !new), V> {
    var list: HashElement?<K, V>
    ghost var nodes: seq<HashElement<K, V>>

    ghost predicate Valid()
      reads this, nodes`next
    {
      && (if nodes == [] then list == null else list == nodes[0] && nodes[|nodes| - 1].next == null)
      && (forall i :: 0 <= i < |nodes| - 1 ==> nodes[i].next == nodes[i + 1])
      && (forall i, j :: 0 <= i < j < |nodes| ==> nodes[i] != nodes[j])
    }

    ghost function Chain(): (c: seq<Element<K, V>>)
      reads this`nodes, nodes`content
      ensures |c| == |nodes|
      ensures forall i :: 0 <= i < |nodes| ==> c[i] == nodes[i].content
    {
      Contents(nodes)
    }

    lemma Follow(k: nat)
      requires Valid()
      ensures NodeAt(nodes, 0) == list && NodeAt(nodes, -1) == null && (NodeAt(nodes, k) == null <==> k >= |nodes|)
      ensures k < |nodes| ==> NodeAt(nodes, k) == nodes[k] && nodes[k].next == NodeAt(nodes, k + 1)
    {
    }

    constructor ()
      ensures Valid() && nodes == [] && Chain() == []
    {
      list, nodes := null, [];
    }

    /** hash_add_fast */
    method AddFast(key: K, hv: nat, value: V)
      requires Valid()
      modifies this
      ensures Valid() && Chain() == [Element(Some(key), value, hv)] + old(Chain())
    {
      var he := new HashElement(Element(Some(key), value, hv), list);
      Push(he);
    }

    /** Put an element that is linked to the first one before it. */
    method Push(he: HashElement<K, V>)
      requires Valid() && he !in nodes && he.next == list
      modifies this
      ensures Valid() && nodes == [he] + old(nodes) && Chain() == [he.content] + old(Chain())
    {
      hide Contents;
      ContentsPushed(he, nodes);
      list := he;
      nodes := [he] + nodes;
    }

    /** The walk along the chain that the lookup and the removal begin with. */
    method Walk(key: K, hv: nat) returns (he: HashElement?<K, V>, prev: HashElement?<K, V>)
      requires Valid()
      ensures var i := Position(Chain(), key, hv);
              && he == (if i < |nodes| then nodes[i] else null)
              && prev == if i == 0 then null else nodes[i - 1]
    {
      prev, he := null, list;
      ghost var i := 0;
      while he != null && !(hv == he.content.hashValue && he.content.key == Some(key))
        invariant i <= |nodes| && he == (if i < |nodes| then nodes[i] else null)
        invariant prev == if i == 0 then null else nodes[i - 1]
        invariant forall j :: 0 <= j < i ==> !(Chain()[j].hashValue == hv && Chain()[j].key == Some(key))
        decreases |nodes| - i
      {
        prev := he;
        he := he.next;
        i := i + 1;
      }
      PositionIs(Chain(), key, hv, i);
    }

    /** hash_lookup_fast: a hit behind the first element is relinked to the front. */
    method LookupFast(key: K, hv: nat) returns (he: HashElement?<K, V>)
      requires Valid()
      modifies this, nodes
      ensures Valid()
      ensures var i := Position(old(Chain()), key, hv);
              if i == |old(Chain())| then he == null && Chain() == old(Chain())
              else he != null && list == he && he.content == old(Chain())[i]
                   && Chain() == Fronted(old(Chain()), i)
    {
      hide Valid, Position, Unlinked;
      ghost var i := Position(Chain(), key, hv);
      var prev;
      he, prev := Walk(key, hv);
      if he != null && prev != null {
        ToFront(he, prev, i);
      } else if he != null {
        Follow(0);
        assert old(Chain()) == Fronted(old(Chain()), 0);
      }
    }

    /** Relink an element that is not the first to the front. */
    method ToFront(he: HashElement<K, V>, prev: HashElement<K, V>, ghost i: nat)
      requires Valid() && 0 < i < |nodes| && he == nodes[i] && prev == nodes[i - 1]
      modifies this, nodes`next
      ensures Valid() && list == he
      ensures Chain() == Fronted(old(Chain()), i)
    {
      hide Valid, Contents, Fronted;
      ContentsMoved(nodes, i);
      Relink(he, prev, i);
    }

    method Relink(he: HashElement<K, V>, prev: HashElement<K, V>, ghost i: nat)
      requires Valid() && 0 < i < |nodes| && he == nodes[i] && prev == nodes[i - 1]
      modifies this, nodes`next
      ensures Valid() && list == he && nodes == Fronted(old(nodes), i)
    {
      prev.next := he.next;
      he.next := list;
      list := he;
      nodes := Fronted(nodes, i);
      assert forall j :: 1 <= j < |nodes| ==> nodes[j] == old(nodes)[if j <= i then j - 1 else j];
    }

    /** hash_remove_fast, without the count. */
    method RemoveFast(key: K, hv: nat) returns (removed: bool)
      requires Valid()
      modifies this, nodes
      ensures Valid()
      ensures var i := Position(old(Chain()), key, hv);
              && removed == (i < |old(Chain())|)
              && Chain() == if removed then Unlinked(old(Chain()), i) else old(Chain())
    {
      ghost var i := Position(Chain(), key, hv);
      var he, prev := Walk(key, hv);
      removed := he != null;
      if he != null {
        var _ := UnlinkAfter(prev, i);
      }
    }

    /** hash_remove_marked; the result is how far n_elements is lowered. */
    method RemoveMarked() returns (count: nat)
      requires Valid()
      modifies this, nodes
      ensures Valid() && Chain() == Unmarked(old(Chain())) && count == |old(Chain())| - |Chain()|
    {
      hide Unmarked, Cleaned, Valid, Contents, Unlinked;
      count := 0;
      var prev: HashElement?<K, V> := null;
      var he := list;
      ghost var c, owned := Chain(), set n | n in nodes;
      ghost var i, k := 0, 0;
      CleanedStart(c);
      Follow(0);
      while he != null
        invariant Valid() && forall j :: 0 <= j < |nodes| ==> nodes[j] in owned
        invariant Cleaned(Chain(), k, c, i) && k <= |nodes| && count + |nodes| == |c|
        invariant he == NodeAt(nodes, k) && prev == NodeAt(nodes, k - 1)
        decreases |nodes| - k
      {
        Follow(k);
        CleanedStep(Chain(), k, c, i);
        assert he.content == Chain()[k];
        if he.content.key.None? {
          he := UnlinkAfter(prev, k);
          count := count + 1;
        } else {
          prev := he;
          he := he.next;
          k := k + 1;
        }
        i := i + 1;
      }
      Follow(k);
      CleanedEnd(Chain(), k, c, i);
    }

    /** Take out the element behind prev, or the first one. */
    method UnlinkAfter(prev: HashElement?<K, V>, ghost k: nat) returns (newhe: HashElement?<K, V>)
      requires Valid() && k < |nodes| && prev == NodeAt(nodes, k - 1)
      modifies this, nodes`next
      ensures Valid() && nodes == Unlinked(old(nodes), k) && Chain() == Unlinked(old(Chain()), k)
      ensures newhe == NodeAt(nodes, k) && prev == NodeAt(nodes, k - 1)
    {
      hide Valid, Contents, Unlinked;
      ContentsUnlinked(nodes, k);
      newhe := Cut(prev, k);
    }

    method Cut(prev: HashElement?<K, V>, ghost k: nat) returns (newhe: HashElement?<K, V>)
      requires Valid() && k < |nodes| && prev == NodeAt(nodes, k - 1)
      modifies this, nodes`next
      ensures Valid() && nodes == Unlinked(old(nodes), k) && newhe == NodeAt(nodes, k) && prev == NodeAt(nodes, k - 1)
    {
      if prev != null {
        assert prev.next == nodes[k];
        newhe := prev.next.next;
        prev.next := newhe;
      } else {
        newhe := list.next;
        list := newhe;
      }
      nodes := Unlinked(nodes, k);
      assert forall j :: 0 <= j < |nodes| ==> nodes[j] == old(nodes)[if j < k then j else j + 1];
    }
  }
}
