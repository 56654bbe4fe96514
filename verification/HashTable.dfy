/**
 The chained hash table (libjtype/hash.c): an array of linked lists of entries.  The table
 refines a finite map from keys to entries.
 */
module HashTable {
  import opened LinkedList

  const MODULUS := 0x1_0000_0000

  /** HASHFN on 32-bit keys; the size is a power of two, so masking with size - 1 is a remainder. */
  function Hash(key: nat, size: nat): (loc: nat)
    requires size > 0
    ensures loc < size
  {
    key * 17011 % MODULUS % size
  }

  datatype Option<T> = None | Some(value: T)

  class Entry<V> {
    const key: nat
    var data: V

    constructor (key: nat, data: V)
      ensures this.key == key && this.data == data
    {
      this.key := key;
      this.data := data;
    }
  }

  // ---------- chains against a map ----------

  ghost predicate Holds<V>(chain: seq<Entry<V>>, key: nat) {
    exists k :: 0 <= k < |chain| && chain[k].key == key
  }

  /** Every entry of a chain belongs there and is the map's; no key appears twice. */
  ghost predicate ChainOk<V>(chain: seq<Entry<V>>, loc: nat, size: nat, contents: map<nat, Entry<V>>)
    requires size > 0
  {
    && (forall k :: 0 <= k < |chain| ==>
          Hash(chain[k].key, size) == loc && chain[k].key in contents && contents[chain[k].key] == chain[k])
    && (forall k, l :: 0 <= k < l < |chain| ==> chain[k].key != chain[l].key)
  }

  /** The chains hold exactly the entries of the map. */
  ghost predicate Represents<V>(chains: seq<seq<Entry<V>>>, contents: map<nat, Entry<V>>)
    requires chains != []
  {
    && (forall i :: 0 <= i < |chains| ==> ChainOk(chains[i], i, |chains|, contents))
    && (forall key :: key in contents ==> contents[key].key == key && Holds(chains[Hash(key, |chains|)], key))
  }

  /** A key is in the map exactly if its chain holds it. */
  lemma HeldIsMapped<V>(chains: seq<seq<Entry<V>>>, contents: map<nat, Entry<V>>, key: nat)
    requires chains != [] && Represents(chains, contents)
    ensures Holds(chains[Hash(key, |chains|)], key) <==> key in contents
  {
  }

  lemma FoundEntry<V>(chains: seq<seq<Entry<V>>>, contents: map<nat, Entry<V>>, loc: nat, k: nat)
    requires chains != [] && Represents(chains, contents) && loc < |chains| && k < |chains[loc]|
    ensures var e := chains[loc][k]; e.key in contents && contents[e.key] == e && Hash(e.key, |chains|) == loc
  {
  }

  lemma AddRepresents<V>(chains: seq<seq<Entry<V>>>, contents: map<nat, Entry<V>>, e: Entry<V>)
    requires chains != [] && Represents(chains, contents) && e.key !in contents
    ensures var loc := Hash(e.key, |chains|);
            Represents(chains[loc := [e] + chains[loc]], contents[e.key := e])
            && |contents[e.key := e]| == |contents| + 1
  {
    var loc := Hash(e.key, |chains|);
    var cs, m := chains[loc := [e] + chains[loc]], contents[e.key := e];
    assert m.Keys == contents.Keys + {e.key};
    forall i | 0 <= i < |cs| ensures ChainOk(cs[i], i, |cs|, m) {
      assert ChainOk(chains[i], i, |chains|, contents);
    }
    forall key | key in m ensures m[key].key == key && Holds(cs[Hash(key, |cs|)], key) {
      if key == e.key {
        assert cs[loc][0].key == key;
      } else {
        StillHeld(chains[Hash(key, |chains|)], e, key);
      }
    }
  }

  lemma StillHeld<V>(chain: seq<Entry<V>>, e: Entry<V>, key: nat)
    requires Holds(chain, key)
    ensures Holds([e] + chain, key)
  {
    var k :| 0 <= k < |chain| && chain[k].key == key;
    assert ([e] + chain)[k + 1].key == key;
  }

  lemma RemoveRepresents<V>(chains: seq<seq<Entry<V>>>, contents: map<nat, Entry<V>>, loc: nat, k: nat)
    requires chains != [] && Represents(chains, contents) && loc < |chains| && k < |chains[loc]|
    ensures var key := chains[loc][k].key;
            key in contents && Represents(chains[loc := Without(chains[loc], k)], contents - {key})
            && |contents - {key}| == |contents| - 1
  {
    var key := chains[loc][k].key;
    var cs, m := chains[loc := Without(chains[loc], k)], contents - {key};
    assert ChainOk(chains[loc], loc, |chains|, contents);
    assert m.Keys == contents.Keys - {key};
    forall i | 0 <= i < |cs| ensures ChainOk(cs[i], i, |cs|, m) {
      assert ChainOk(chains[i], i, |chains|, contents);
      if i == loc { ChainWithout(chains[loc], loc, |chains|, contents, k); }
    }
    forall other | other in m ensures m[other].key == other && Holds(cs[Hash(other, |cs|)], other) {
      if Hash(other, |cs|) == loc { HeldWithout(chains[loc], k, other); }
    }
  }

  lemma ChainWithout<V>(chain: seq<Entry<V>>, loc: nat, size: nat, contents: map<nat, Entry<V>>, k: nat)
    requires size > 0 && ChainOk(chain, loc, size, contents) && k < |chain|
    ensures ChainOk(Without(chain, k), loc, size, contents - {chain[k].key})
  {
    var c := Without(chain, k);
    forall j | 0 <= j < |c| ensures c[j] == chain[if j < k then j else j + 1] {}
  }

  lemma HeldWithout<V>(chain: seq<Entry<V>>, k: nat, key: nat)
    requires k < |chain| && chain[k].key != key && Holds(chain, key)
    ensures Holds(Without(chain, k), key)
  {
    var j :| 0 <= j < |chain| && chain[j].key == key;
    assert Without(chain, k)[if j < k then j else j - 1] == chain[j];
  }

  // ---------- the table ----------

  /** The bucket heads, and how many entries the chains hold. */
  class Table<V> {
    const table: seq<List<Entry<V>>>
    var entries: nat

    /** The map from keys to entries, and the lists and nodes the table is made of. */
    ghost var contents: map<nat, Entry<V>>
    ghost var repr: set<object>

    ghost predicate Chains()
      reads this`repr, repr
    {
      && table != [] && this !in repr
      && (forall i :: 0 <= i < |table| ==> table[i] in repr)
      && (forall i, n :: 0 <= i < |table| && n in table[i].nodes ==> n in repr)
      && (forall i :: 0 <= i < |table| ==> table[i].Valid())
      && (forall i, j :: 0 <= i < j < |table| ==> table[i] != table[j])
      && (forall i, j, n :: 0 <= i < j < |table| && n in table[i].nodes ==> n !in table[j].nodes)
    }

    ghost function Lists(): (chains: seq<seq<Entry<V>>>)
      requires Chains()
      reads this`repr, repr
      ensures |chains| == |table| && forall i :: 0 <= i < |chains| ==> chains[i] == table[i].Contents()
    {
      ListsBelow(|table|)
    }

    ghost function ListsBelow(n: nat): (chains: seq<seq<Entry<V>>>)
      requires Chains() && n <= |table|
      reads this`repr, repr
      ensures |chains| == n && forall i :: 0 <= i < n ==> chains[i] == table[i].Contents()
    {
      if n == 0 then [] else ListsBelow(n - 1) + [table[n - 1].Contents()]
    }

    ghost predicate Valid()
      reads this, repr
    {
      Chains() && Represents(Lists(), contents) && entries == |contents|
    }

    /** jt_hash_new, for a size that is a power of two. */
    constructor (size: nat)
      requires size > 0
      ensures Valid() && fresh(repr) && contents == map[] && |table| == size
    {
      var heads: seq<List<Entry<V>>> := [];
      ghost var objects: set<object> := {};
      for i := 0 to size
        invariant |heads| == i && fresh(objects)
        invariant forall k :: 0 <= k < i ==> heads[k] in objects && heads[k].Valid() && heads[k].nodes == []
        invariant forall j, k :: 0 <= j < k < i ==> heads[j] != heads[k]
      {
        var head := new List();
        heads := heads + [head];
        objects := objects + {head};
      }
      table := heads;
      entries := 0;
      contents := map[];
      repr := objects;
    }

    /** jt_hash_lookup. */
    method Lookup(key: nat) returns (entry: Entry?<V>)
      requires Valid()
      ensures if key in contents then entry == contents[key] else entry == null
    {
      ghost var k;
      entry, k := Search(key);
    }

    /** The walk along a chain; `k` is where it stopped. */
    method Search(key: nat) returns (entry: Entry?<V>, ghost k: nat)
      requires Valid()
      ensures var chain := Lists()[Hash(key, |table|)];
              if entry != null then k < |chain| && chain[k] == entry && entry.key == key && key in contents && contents[key] == entry
              else key !in contents
    {
      hide Joined, Distinct, Represents, Hash, Data;
      var loc := Hash(key, |table|);
      var item := table[loc].head;
      k := 0;
      ghost var chain := table[loc].Contents();
      while item != null
        invariant 0 <= k <= |chain| && item == table[loc].From(k)
        invariant forall j :: 0 <= j < k ==> chain[j].key != key
        decreases |chain| - k
      {
        table[loc].Neighbours(k);
        DataAt(table[loc].nodes, k);
        if item.data.key == key {
          FoundEntry(Lists(), contents, loc, k);
          return item.data, k;
        }
        item := item.prev;
        k := k + 1;
      }
      entry := null;
      HeldIsMapped(Lists(), contents, key);
    }
  
    /** One list has changed, within its own nodes and new ones: the others are as they were. */
    twostate lemma OthersUnchanged(loc: nat)
      requires old(Chains()) && loc < |table| && this !in old(repr)
      requires forall o :: o in old(repr) && o != table[loc] && o !in old(table[loc].nodes) ==> unchanged(o)
      ensures forall i :: 0 <= i < |table| && i != loc ==>
                table[i].nodes == old(table[i].nodes) && table[i].Valid() && table[i].Contents() == old(table[i].Contents())
    {
      forall i | 0 <= i < |table| && i != loc
        ensures table[i].nodes == old(table[i].nodes) && table[i].Valid() && table[i].Contents() == old(table[i].Contents())
      {
        hide Joined, Distinct, Data;
        assert old(table[i].Valid()) && unchanged(table[i]);
        forall k | 0 <= k < |old(table[i].nodes)| ensures unchanged(old(table[i].nodes)[k]) {
          assert old(table[i].nodes)[k] in old(table[i].nodes);
        }
        table[i].Untouched();
      }
    }

    /** A new entry at the head of its chain. */
    method AddEntry(entry: Entry<V>)
      requires Valid() && entry.key !in contents
      modifies this, repr
      ensures Valid() && fresh(repr - old(repr)) && contents == old(contents)[entry.key := entry]
    {
      hide Represents, Hash;
      var loc := Hash(entry.key, |table|);
      ghost var chains := Lists();
      AddRepresents(chains, contents, entry);
      AddToChain(loc, entry);
      entries := entries + 1;
      contents := contents[entry.key := entry];
    }

    method AddToChain(loc: nat, entry: Entry<V>)
      requires Chains() && loc < |table|
      modifies this`repr, repr
      ensures Chains() && fresh(repr - old(repr))
      ensures Lists() == old(Lists())[loc := [entry] + old(Lists())[loc]]
    {
      hide Joined, Distinct, Data;
      label before:
      var item := table[loc].Add(entry);
      OthersUnchanged@before(loc);
      repr := repr + {item};
    }

    /** jt_hash_insert: the key's entry, added with `init` if it is new. */
    method Insert(key: nat, init: V) returns (entry: Entry<V>)
      requires Valid()
      modifies this, repr
      ensures Valid() && fresh(repr - old(repr))
      ensures contents == old(contents)[key := entry] && entry.key == key
      ensures if key in old(contents) then entry == old(contents[key]) && unchanged(entry)
              else fresh(entry) && entry.data == init
    {
      hide Represents, Hash, Data, Chains;
      ghost var k;
      var found;
      found, k := Search(key);
      if found != null {
        assert contents[key := found] == contents;
        return found;
      }
      entry := new Entry(key, init);
      AddEntry(entry);
    }
  
    /** Take the `k`th item off its chain. */
    method DelinkFromChain(loc: nat, item: Node<Entry<V>>, ghost k: nat)
      requires Chains() && loc < |table| && k < |table[loc].nodes| && table[loc].nodes[k] == item
      modifies table[loc], table[loc].nodes
      ensures Chains() && Lists() == old(Lists())[loc := Without(old(Lists())[loc], k)]
      ensures table[loc].nodes == Without(old(table[loc].nodes), k) && item.data == old(item.data)
    {
      hide Joined, Distinct, Data;
      label before:
      table[loc].DelinkItem(item, k);
      OthersUnchanged@before(loc);
      assert forall n :: n in table[loc].nodes ==> n in old(table[loc].nodes);
    }

    /** Remove the entry at the `k`th item of a chain. */
    method RemoveEntry(loc: nat, item: Node<Entry<V>>, ghost k: nat)
      requires Valid() && loc < |table| && k < |table[loc].nodes| && table[loc].nodes[k] == item
      modifies this`entries, this`contents, table[loc], table[loc].nodes
      ensures Valid() && contents == old(contents) - {old(item.data).key}
      ensures table[loc].nodes == Without(old(table[loc].nodes), k)
      ensures table[loc].Contents() == Without(old(table[loc].Contents()), k)
    {
      hide Represents, Joined, Distinct, Data, Hash;
      DataAt(table[loc].nodes, k);
      ghost var key := item.data.key;
      RemoveRepresents(Lists(), contents, loc, k);
      DelinkFromChain(loc, item, k);
      entries := entries - 1;
      contents := contents - {key};
    }

    lemma ListIsValid(loc: nat)
      requires Chains() && loc < |table|
      ensures table[loc].Valid() && Lists()[loc] == table[loc].Contents()
    {
    }

    /** How far removal has come: the first `k` items of the chain do not hold the key. */
    ghost predicate Passed(loc: nat, key: nat, k: nat)
      requires loc < |table|
      reads table[loc], table[loc].nodes
    {
      k <= |table[loc].nodes| && forall j :: 0 <= j < k ==> table[loc].Contents()[j].key != key
    }

    /** Look at one item, and remove its entry if the key is the one. */
    method RemoveIfFound(loc: nat, item: Node<Entry<V>>, key: nat, ghost k: nat)
      returns (prev: Node?<Entry<V>>, data: Option<V>, ghost k': nat)
      requires Valid() && loc < |table| && k < |table[loc].nodes| && table[loc].nodes[k] == item && Passed(loc, key, k)
      modifies this`entries, this`contents, table[loc], table[loc].nodes
      ensures Valid() && Passed(loc, key, k') && prev == table[loc].From(k')
      ensures forall j :: 0 <= j < |table[loc].nodes| ==> table[loc].nodes[j] in old(table[loc].nodes)
      ensures |table[loc].nodes| - k' == old(|table[loc].nodes|) - k - 1
      ensures if data.None? then contents == old(contents)
              else key in old(contents) && contents == old(contents) - {key} && data == Some(old(contents[key].data))
    {
      hide Represents, Joined, Distinct, Hash, Data, Chains;
      ListIsValid(loc);
      table[loc].Neighbours(k);
      DataAt(table[loc].nodes, k);
      prev := item.prev;
      var h := item.data;
      if h.key == key {
        FoundEntry(Lists(), contents, loc, k);
        data := Some(h.data);
        RemoveEntry(loc, item, k);
        k' := k;
      } else {
        data := None;
        k' := k + 1;
      }
    }

    /** jt_hash_remove: the data of the entry removed, if there was one.  The walk goes on to the chain's end. */
    method Remove(key: nat) returns (data: Option<V>)
      requires Valid()
      modifies this`entries, this`contents, table[Hash(key, |table|)], table[Hash(key, |table|)].nodes
      ensures Valid() && contents == old(contents) - {key}
      ensures data == if key in old(contents) then Some(old(contents[key].data)) else None
    {
      hide Represents, Joined, Distinct, Hash, Data, Chains;
      var loc := Hash(key, |table|);
      ListIsValid(loc);
      var item := table[loc].head;
      ghost var k := 0;
      data := None;
      while item != null
        invariant Valid() && Passed(loc, key, k) && item == table[loc].From(k)
        invariant forall j :: 0 <= j < |table[loc].nodes| ==> table[loc].nodes[j] in old(table[loc].nodes)
        invariant if data.None? then contents == old(contents)
                  else key in old(contents) && contents == old(contents) - {key} && data == Some(old(contents[key].data))
        decreases |table[loc].nodes| - k
      {
        var here;
        item, here, k := RemoveIfFound(loc, item, key, k);
        if here.Some? { data := here; }
      }
      ListIsValid(loc);
      HeldIsMapped(Lists(), contents, key);
      assert !Holds(table[loc].Contents(), key);
    }
  }
}
