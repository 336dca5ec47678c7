/** The in-memory slice cache: a map and a recency list over the same entries, a prefix trie
    over the live keys, and a byte counter, kept in step by `Get` and `Set`. */
module MemoryCaches {
  import opened Text
  import opened CacheItems
  import opened PrefixTries

  /** The value of one cache entry. */
  datatype Entry = Entry(key: string, item: CacheItem, size: nat)

  function Sum(s: seq<Entry>): nat {
    if s == [] then 0 else Sum(s[..|s| - 1]) + s[|s| - 1].size
  }

  predicate DistinctKeys(s: seq<Entry>) {
    forall i, j | 0 <= i < j < |s| :: s[i].key != s[j].key
  }

  ghost function Keys(s: seq<Entry>): set<string> {
    set i | 0 <= i < |s| :: s[i].key
  }

  /** Drops position i. */
  function Drop<T>(s: seq<T>, i: nat): seq<T>
    requires i < |s|
  {
    s[..i] + s[i + 1..]
  }

  /** The position, before position i moved to the front, of what is at x afterwards. */
  function OldIndex(i: nat, x: nat): nat {
    if x == 0 then i else if x <= i then x - 1 else x
  }

  function ToFront<T>(s: seq<T>, i: nat): (r: seq<T>)
    requires i < |s|
    ensures |r| == |s| && forall x | 0 <= x < |s| :: r[x] == s[OldIndex(i, x)]
  {
    [s[i]] + Drop(s, i)
  }

  lemma ToFrontSum(s: seq<Entry>, i: nat)
    requires i < |s|
    ensures Sum(ToFront(s, i)) == Sum(s)
  {
    hide Sum, Drop;
    SumDrop(s, i);
    SumAppend([s[i]], Drop(s, i));
    SumSingle(s[i]);
  }

  lemma ToFrontKeys(s: seq<Entry>, i: nat)
    requires i < |s| && DistinctKeys(s)
    ensures DistinctKeys(ToFront(s, i)) && Keys(ToFront(s, i)) == Keys(s)
  {
    hide Drop;
    var r := ToFront(s, i);
    forall x, y | 0 <= x < y < |r|
      ensures r[x].key != r[y].key
    {
      assert OldIndex(i, x) != OldIndex(i, y);
    }
    hide ToFront;
    forall k | k in Keys(s)
      ensures k in Keys(r)
    {
      var n :| 0 <= n < |s| && s[n].key == k;
      var n' := if n == i then 0 else if n < i then n + 1 else n;
      assert OldIndex(i, n') == n && r[n'] == s[n];
    }
    forall k | k in Keys(r)
      ensures k in Keys(s)
    {
      var n :| 0 <= n < |r| && r[n].key == k;
      assert s[OldIndex(i, n)].key == k;
    }
  }

  /** Whether the loop guard of eviction lets a list stand before an entry of `newSize` joins it. */
  predicate Admits(capacity: int, maxSizeBytes: int, newSize: nat, s: seq<Entry>) {
    || s == []
    || (!(capacity > 0 && |s| >= capacity) && !(maxSizeBytes > 0 && Sum(s) + newSize > maxSizeBytes))
  }

  /** The longest most-recent prefix that leaves room for the new entry. */
  ghost predicate LongestAdmitted(capacity: int, maxSizeBytes: int, newSize: nat, s: seq<Entry>, kept: nat) {
    && kept <= |s|
    && Admits(capacity, maxSizeBytes, newSize, s[..kept])
    && forall j | kept < j <= |s| :: !Admits(capacity, maxSizeBytes, newSize, s[..j])
  }

  function ItemSize(codec: MetadataCodec, item: CacheItem): nat {
    |item.data| + if item.metadata.Some? then |codec.encode(item.metadata.value)| else 0
  }

  lemma ToFrontElements<T>(s: seq<T>, i: nat)
    requires i < |s|
    ensures forall x :: x in ToFront(s, i) <==> x in s
  {
    forall x | x in s
      ensures x in ToFront(s, i)
    {
      var n :| 0 <= n < |s| && s[n] == x;
      var n' := if n == i then 0 else if n < i then n + 1 else n;
      assert ToFront(s, i)[n'] == s[n];
    }
  }

  lemma {:induction false} SumAppend(s: seq<Entry>, t: seq<Entry>)
    ensures Sum(s + t) == Sum(s) + Sum(t)
  {
    if t == [] {
      assert s + t == s;
    } else {
      assert (s + t)[..|s + t| - 1] == s + t[..|t| - 1];
      SumAppend(s, t[..|t| - 1]);
    }
  }

  lemma SumSingle(e: Entry)
    ensures Sum([e]) == e.size
  {
    assert [e][..0] == [];
  }

  lemma SumDrop(s: seq<Entry>, i: nat)
    requires i < |s|
    ensures Sum(s) == Sum(Drop(s, i)) + s[i].size
  {
    hide Sum;
    assert s == s[..i] + ([s[i]] + s[i + 1..]);
    SumAppend(s[..i], [s[i]] + s[i + 1..]);
    SumAppend([s[i]], s[i + 1..]);
    SumAppend(s[..i], s[i + 1..]);
    SumSingle(s[i]);
  }

  /** A list element that holds one entry. */
  class Element {
    const key: string
    var item: CacheItem
    var size: nat

    constructor (key: string, item: CacheItem, size: nat)
      ensures this.key == key && this.item == item && this.size == size
    {
      this.key, this.item, this.size := key, item, size;
    }

    function Value(): Entry
      reads this
    {
      Entry(key, item, size)
    }
  }

  /** The doubly linked recency list, by its elements in order. */
  class EntryList {
    var elems: seq<Element>
    /** The values of the elements. */
    ghost var entries: seq<Entry>

    ghost predicate Valid()
      reads this, elems
    {
      && |entries| == |elems| && DistinctKeys(entries)
      && (forall i | 0 <= i < |elems| :: entries[i] == elems[i].Value())
    }

    constructor ()
      ensures Valid() && elems == [] && entries == []
    {
      elems, entries := [], [];
    }

    method MoveToFront(e: Element) returns (ghost i: nat)
      requires Valid() && e in elems
      modifies this
      ensures Valid()
      ensures i < |old(elems)| && old(elems)[i] == e
      ensures elems == ToFront(old(elems), i) && entries == ToFront(old(entries), i)
      ensures Keys(entries) == Keys(old(entries)) && Sum(entries) == Sum(old(entries))
    {
      hide Sum, Drop;
      var j := 0;
      while elems[j] != e
        invariant j < |elems| && e !in elems[..j]
        decreases |elems| - j
      {
        j := j + 1;
      }
      i := j;
      ToFrontKeys(entries, j);
      ToFrontSum(entries, j);
      elems, entries := ToFront(elems, j), ToFront(entries, j);
    }

    method PushFront(key: string, item: CacheItem, size: nat) returns (e: Element)
      requires Valid() && key !in Keys(entries)
      modifies this
      ensures Valid() && fresh(e) && e.key == key
      ensures elems == [e] + old(elems) && entries == [Entry(key, item, size)] + old(entries)
    {
      e := new Element(key, item, size);
      elems, entries := [e] + elems, [e.Value()] + entries;
    }

    method RemoveBack() returns (e: Element)
      requires Valid() && elems != []
      modifies this
      ensures Valid()
      ensures old(elems) == elems + [e] && old(entries) == entries + [e.Value()]
    {
      e := elems[|elems| - 1];
      elems, entries := elems[..|elems| - 1], entries[..|entries| - 1];
    }

    /** Replaces the value held by the front element. */
    method SetFront(e: Element, item: CacheItem, size: nat)
      requires Valid() && elems != [] && elems[0] == e
      modifies `entries, e`item, e`size
      ensures Valid() && elems == old(elems)
      ensures entries == [Entry(old(entries)[0].key, item, size)] + old(entries)[1..]
    {
      assert forall i, j | 0 <= i < j < |elems| :: elems[i] != elems[j] by {
        assert forall i, j | 0 <= i < j < |entries| :: entries[i].key != entries[j].key;
      }
      e.item, e.size := item, size;
      entries := [e.Value()] + entries[1..];
    }
  }

  lemma KeysSnoc(s: seq<Entry>, e: Entry)
    requires DistinctKeys(s + [e])
    ensures Keys(s + [e]) == Keys(s) + {e.key} && e.key !in Keys(s)
    ensures Sum(s + [e]) == Sum(s) + e.size
  {
    hide Sum;
    SumAppend(s, [e]);
    SumSingle(e);
    var t := s + [e];
    assert forall i | 0 <= i < |s| :: t[i] == s[i];
    assert t[|s|] == e;
    forall k | k in Keys(t)
      ensures k in Keys(s) + {e.key}
    {
      var n :| 0 <= n < |t| && t[n].key == k;
      assert n < |s| ==> s[n].key in Keys(s);
    }
    forall n | 0 <= n < |t|
      ensures t[n].key in Keys(t)
    {
    }
    assert forall k | k in Keys(s) :: k in Keys(t);
  }

  lemma KeysCons(s: seq<Entry>, e: Entry)
    requires DistinctKeys(s) && e.key !in Keys(s)
    ensures Keys([e] + s) == Keys(s) + {e.key} && DistinctKeys([e] + s)
    ensures Sum([e] + s) == Sum(s) + e.size
  {
    hide Sum;
    SumAppend([e], s);
    SumSingle(e);
    var t := [e] + s;
    assert forall i | 0 <= i < |s| :: t[i + 1] == s[i] && s[i].key in Keys(s);
    assert t[0] == e;
    assert forall i | 0 < i < |t| :: t[i] == s[i - 1];
    forall k | k in Keys(s)
      ensures k in Keys(t)
    {
      var n :| 0 <= n < |s| && s[n].key == k;
      assert t[n + 1].key == k;
    }
  }

  // ---- Map, list, counter and history in step ----

  /** The state of the cache besides the trie. */
  ghost predicate InStep(codec: MetadataCodec, capacity: int, m: map<string, Element>, elems: seq<Element>,
                         s: seq<Entry>, currentSize: int, latest: map<string, CacheItem>)
  {
    && |s| == |elems| && DistinctKeys(s)
    // the map and the list are in bijection
    && m.Keys == Keys(s)
    && (forall i | 0 <= i < |s| :: elems[i].key == s[i].key && s[i].key in m && m[s[i].key] == elems[i])
    // the counter is the sum of the entry sizes, and the list obeys the capacity
    && currentSize == Sum(s)
    && (forall i | 0 <= i < |s| :: s[i].size == ItemSize(codec, s[i].item))
    && (capacity > 0 ==> |s| <= capacity)
    // every entry holds the item of the latest Set of its key
    && (forall i | 0 <= i < |s| :: s[i].key in latest && latest[s[i].key] == s[i].item)
  }

  lemma StepToFront(codec: MetadataCodec, capacity: int, m: map<string, Element>, elems: seq<Element>,
                    s: seq<Entry>, size: int, latest: map<string, CacheItem>, i: nat)
    requires InStep(codec, capacity, m, elems, s, size, latest) && i < |s|
    ensures InStep(codec, capacity, m, ToFront(elems, i), ToFront(s, i), size, latest)
  {
    hide Sum, Drop, ToFront, Keys, DistinctKeys, ItemSize;
    ToFrontKeys(s, i);
    ToFrontSum(s, i);
  }

  lemma ReplaceFrontFacts(s: seq<Entry>, e: Entry)
    requires s != [] && e.key == s[0].key && DistinctKeys(s)
    ensures var t := [e] + s[1..];
            && Keys(t) == Keys(s) && DistinctKeys(t) && Sum(t) == Sum(s) - s[0].size + e.size
            && |t| == |s| && t[0] == e && (forall n | 0 < n < |s| :: t[n] == s[n] && s[n].key != e.key)
  {
    hide Sum;
    SumAppend([e], s[1..]);
    SumAppend([s[0]], s[1..]);
    SumSingle(e);
    SumSingle(s[0]);
    assert s == [s[0]] + s[1..];
    var t := [e] + s[1..];
    assert forall n | 0 <= n < |s| :: t[n].key == s[n].key;
    assert Keys(t) == Keys(s) by {
      assert forall n | 0 <= n < |t| :: t[n].key in Keys(s);
      assert forall n | 0 <= n < |s| :: s[n].key in Keys(t);
    }
  }

  lemma StepReplaceFront(codec: MetadataCodec, capacity: int, m: map<string, Element>, elems: seq<Element>,
                         s: seq<Entry>, size: int, latest: map<string, CacheItem>, e: Entry)
    requires InStep(codec, capacity, m, elems, s, size, latest)
    requires s != [] && e.key == s[0].key && e.size == ItemSize(codec, e.item)
    ensures InStep(codec, capacity, m, elems, [e] + s[1..], size - s[0].size + e.size, latest[e.key := e.item])
  {
    hide Sum, ItemSize, Keys, DistinctKeys;
    ReplaceFrontFacts(s, e);
  }

  lemma StepDropLast(codec: MetadataCodec, capacity: int, m: map<string, Element>, elems: seq<Element>,
                     s: seq<Entry>, size: int, latest: map<string, CacheItem>, last: Entry, lastElem: Element)
    requires InStep(codec, capacity, m, elems + [lastElem], s + [last], size, latest)
    ensures lastElem.key == last.key && last.key in m
    ensures InStep(codec, capacity, m - {last.key}, elems, s, size - last.size, latest)
  {
    hide Sum, ItemSize, Keys;
    KeysSnoc(s, last);
    KeysByIndex(s);
    var t, es := s + [last], elems + [lastElem];
    assert t[|s|] == last && es[|s|] == lastElem;
    assert forall i | 0 <= i < |s| :: t[i] == s[i] && es[i] == elems[i];
    assert (m - {last.key}).Keys == Keys(s);
  }

  lemma StepCons(codec: MetadataCodec, capacity: int, m: map<string, Element>, elems: seq<Element>,
                 s: seq<Entry>, size: int, latest: map<string, CacheItem>, e: Entry, elem: Element)
    requires InStep(codec, capacity, m, elems, s, size, latest)
    requires e.key !in m && e.key == elem.key && e.size == ItemSize(codec, e.item)
    requires capacity > 0 ==> s == [] || |s| < capacity
    ensures InStep(codec, capacity, m[e.key := elem], [elem] + elems, [e] + s, size + e.size, latest[e.key := e.item])
  {
    hide Sum, ItemSize, Keys;
    KeysCons(s, e);
    KeysByIndex(s);
    assert m[e.key := elem].Keys == Keys([e] + s);
  }

  lemma EmptyInStep(codec: MetadataCodec, capacity: int)
    ensures InStep(codec, capacity, map[], [], [], 0, map[])
  {
  }

  /** The keys of a list, by position. */
  lemma KeysByIndex(s: seq<Entry>)
    ensures forall i | 0 <= i < |s| :: s[i].key in Keys(s)
  {
  }

  /** Nothing new is live but the key in front. */
  lemma KeysOfPart(s: seq<Entry>, e: Entry, part: seq<Entry>)
    requires forall x | x in part :: x in s
    ensures Keys([e] + part) <= Keys(s) + {e.key} && e.key in Keys([e] + part)
  {
    var t := [e] + part;
    assert t[0] == e;
    forall k | k in Keys(t)
      ensures k in Keys(s) + {e.key}
    {
      var n :| 0 <= n < |t| && t[n].key == k;
      if n > 0 {
        assert t[n] == part[n - 1] && part[n - 1] in s;
      }
    }
  }

  lemma KeysOfDrop(s: seq<Entry>, e: Entry, i: nat)
    requires i < |s|
    ensures Keys([e] + Drop(s, i)) <= Keys(s) + {e.key} && e.key in Keys([e] + Drop(s, i))
  {
    hide Keys;
    KeysOfPart(s, e, Drop(s, i));
  }

  class MemoryCache {
    const codec: MetadataCodec
    const capacity: int
    const maxSizeBytes: int
    var m: map<string, Element>
    const lruList: EntryList
    const prefixTrie: PrefixTrie
    var currentSize: int
    /** The item of the latest Set of every key ever set. */
    ghost var latest: map<string, CacheItem>

    ghost function Repr(): set<object>
      reads this, lruList, prefixTrie
    {
      {this, lruList} + prefixTrie.Repr() + (set e | e in lruList.elems)
    }

    /** The live entries, most recently used first. */
    ghost function Recency(): seq<Entry>
      reads lruList
    {
      lruList.entries
    }

    ghost predicate Valid()
      reads this, Repr(), lruList, prefixTrie
    {
      && lruList.Valid() && prefixTrie.Valid()
      && InStep(codec, capacity, m, lruList.elems, lruList.entries, currentSize, latest)
      && prefixTrie.keys == m.Keys
    }

    constructor (codec: MetadataCodec, capacity: int, maxSizeBytes: int)
      ensures Valid() && fresh(Repr())
      ensures Recency() == [] && latest == map[]
      ensures this.codec == codec && this.capacity == capacity && this.maxSizeBytes == maxSizeBytes
    {
      this.codec, this.capacity, this.maxSizeBytes := codec, capacity, maxSizeBytes;
      m, currentSize, latest := map[], 0, map[];
      lruList := new EntryList();
      prefixTrie := new PrefixTrie();
      new;
      hide InStep, PrefixTrie.Valid, EntryList.Valid, PrefixTrie.Repr;
      EmptyInStep(codec, capacity);
      assert (set e | e in lruList.elems) == {};
      assert Repr() == {this, lruList} + prefixTrie.Repr();
    }

    lemma Footprint()
      ensures {this, lruList, prefixTrie} <= Repr()
    {
    }

    /** Where a live key sits in the list. */
    lemma Locate(key: string) returns (i: nat)
      requires Valid()
      ensures key in m <==> key in Keys(Recency())
      ensures key in m ==>
                && i < |Recency()| && Recency()[i].key == key && lruList.elems[i] == m[key]
                && Recency()[i] == m[key].Value() && m[key].key == key
                && key in latest && latest[key] == m[key].item
    {
      i := 0;
      if key in m {
        i :| 0 <= i < |Recency()| && Recency()[i].key == key;
      }
    }

    /** Moves the element of a live key to the front of the list. */
    method Touch(key: string) returns (ghost i: nat)
      requires Valid() && key in m
      modifies lruList
      ensures Valid() && Repr() == old(Repr())
      ensures i < |old(Recency())| && old(Recency())[i].key == key
      ensures Recency() == ToFront(old(Recency()), i) && Keys(Recency()) == Keys(old(Recency()))
      ensures lruList.elems != [] && Recency() != [] && lruList.elems[0] == m[key] && Recency()[0] == m[key].Value()
      ensures m[key].key == key && m[key] in old(lruList.elems)
    {
      hide InStep, Sum, Drop, Keys, ItemSize, DistinctKeys, PrefixTrie.Valid;
      i := Locate(key);
      i := lruList.MoveToFront(m[key]);
      StepToFront(codec, capacity, m, old(lruList.elems), old(Recency()), currentSize, latest, i);
      ToFrontElements(old(lruList.elems), i);
    }

    method Get(key: string) returns (r: Result<Option<CacheItem>>)
      requires Valid()
      modifies lruList
      ensures Valid() && Repr() == old(Repr())
      ensures r.Err? <==> key == ""
      ensures r.Ok? ==> (r.value.Some? <==> key in Keys(old(Recency())))
      ensures r.Ok? && r.value.Some? ==>
                && key in latest && r.value.value == latest[key]
                && exists i | 0 <= i < |old(Recency())| ::
                     old(Recency())[i].key == key && Recency() == ToFront(old(Recency()), i)
      ensures r.Err? || r.value.None? ==> Recency() == old(Recency())
      ensures Keys(Recency()) == Keys(old(Recency()))
    {
      hide InStep, Sum, Drop, Keys, ItemSize, DistinctKeys, EntryList.Valid, PrefixTrie.Valid;
      ghost var _ := Locate(key);
      if key == "" {
        return Err("cache key cannot be empty");
      }
      if key !in m {
        return Ok(None);
      }
      ghost var i := Touch(key);
      r := Ok(Some(m[key].item));
    }

    /** An item stored under some live key with that prefix, if there is one. */
    method GetAnyWithPrefix(prefix: string) returns (r: Result<Option<CacheItem>>)
      requires Valid()
      ensures r.Err? <==> prefix == ""
      ensures r.Ok? ==> (r.value.Some? <==> exists k | k in Keys(Recency()) :: prefix <= k)
      ensures r.Ok? && r.value.Some? ==>
                exists k | k in Keys(Recency()) :: prefix <= k && k in latest && r.value.value == latest[k]
    {
      hide Sum, ItemSize, Drop;
      if prefix == "" {
        return Err("prefix cannot be empty");
      }
      var key := prefixTrie.FindWithPrefix(prefix);
      if key != "" && key in m {
        ghost var i := Locate(key);
        return Ok(Some(m[key].item));
      }
      r := Ok(None);
    }

    /** Drops the least recently used entry from the list, the map, the trie and the counter. */
    method Evict()
      requires Valid() && lruList.elems != []
      modifies `m, `currentSize, lruList, prefixTrie, prefixTrie.nodes.Values
      ensures Valid() && Repr() <= old(Repr()) && prefixTrie.nodes == old(prefixTrie.nodes)
      ensures Recency() == old(Recency())[..|old(Recency())| - 1] && m.Keys <= old(m.Keys)
    {
      hide InStep, Sum, Drop, Keys, ItemSize, DistinctKeys, EntryList.Valid, PrefixTrie.Valid;
      var back := lruList.RemoveBack();
      StepDropLast(codec, capacity, m, lruList.elems, Recency(), currentSize, latest, back.Value(), back);
      currentSize := currentSize - back.size;
      m := m - {back.key};
      prefixTrie.Remove(back.key);
    }

    /** An update moves the entry to the front and replaces it there; the counter changes by the
        difference of the sizes, whatever the byte limit says. */
    method UpdateExisting(key: string, item: CacheItem, newSize: nat)
      requires Valid() && key in m && newSize == ItemSize(codec, item)
      modifies `currentSize, `latest, lruList, lruList.elems
      ensures Valid() && Repr() == old(Repr()) && latest == old(latest)[key := item]
      ensures exists i | 0 <= i < |old(Recency())| ::
                old(Recency())[i].key == key && Recency() == [Entry(key, item, newSize)] + Drop(old(Recency()), i)
      ensures key in old(latest) && currentSize == old(currentSize) - ItemSize(codec, old(latest)[key]) + newSize
    {
      hide InStep, Sum, Drop, Keys, ItemSize, DistinctKeys, EntryList.Valid, PrefixTrie.Valid;
      LatestSize(key);
      ghost var i := Touch(key);
      assert Recency()[1..] == Drop(old(Recency()), i);
      ReplaceFront(m[key], item, newSize);
    }

    /** The size of a live entry is that of the item of its key's latest Set. */
    lemma LatestSize(key: string)
      requires Valid() && key in m
      ensures key in latest && m[key].size == ItemSize(codec, latest[key])
    {
      hide Sum, ItemSize, PrefixTrie.Valid;
      var i := Locate(key);
    }

    method ReplaceFront(e: Element, item: CacheItem, newSize: nat)
      requires Valid() && newSize == ItemSize(codec, item)
      requires lruList.elems != [] && Recency() != [] && lruList.elems[0] == e && Recency()[0] == e.Value()
      modifies `currentSize, `latest, lruList`entries, e`item, e`size
      ensures Valid() && Repr() == old(Repr()) && latest == old(latest)[e.key := item]
      ensures Recency() == [Entry(e.key, item, newSize)] + old(Recency())[1..]
      ensures currentSize == old(currentSize) - old(e.size) + newSize
    {
      hide InStep, Sum, Drop, Keys, ItemSize, DistinctKeys, EntryList.Valid, PrefixTrie.Valid;
      StepReplaceFront(codec, capacity, m, lruList.elems, Recency(), currentSize, latest, Entry(e.key, item, newSize));
      assert prefixTrie.keys == m.Keys;
      currentSize := currentSize - e.size + newSize;
      lruList.SetFront(e, item, newSize);
      latest := latest[e.key := item];
      assert InStep(codec, capacity, m, lruList.elems, lruList.entries, currentSize, latest);
    }

    method AddNew(key: string, item: CacheItem, newSize: nat)
      requires Valid() && key !in m && key != "" && newSize == ItemSize(codec, item)
      requires Admits(capacity, maxSizeBytes, newSize, Recency())
      modifies Repr()
      ensures Valid() && fresh(Repr() - old(Repr())) && latest == old(latest)[key := item]
      ensures Recency() == [Entry(key, item, newSize)] + old(Recency())
    {
      hide InStep, Sum, Drop, Keys, ItemSize, DistinctKeys, EntryList.Valid, PrefixTrie.Valid;
      ghost var _ := Locate(key);
      var element := lruList.PushFront(key, item, newSize);
      StepCons(codec, capacity, m, old(lruList.elems), old(Recency()), currentSize, latest,
               Entry(key, item, newSize), element);
      m := m[key := element];
      currentSize := currentSize + newSize;
      latest := latest[key := item];
      prefixTrie.Insert(key);
    }

    /** Evicts from the back until there is room, then adds the new entry. */
    method AddEvicting(key: string, item: CacheItem, newSize: nat)
      requires Valid() && key !in m && key != "" && newSize == ItemSize(codec, item)
      modifies Repr()
      ensures Valid() && fresh(Repr() - old(Repr())) && latest == old(latest)[key := item]
      ensures exists kept: nat ::
                && kept <= |old(Recency())|
                && LongestAdmitted(capacity, maxSizeBytes, newSize, old(Recency()), kept)
                && Recency() == [Entry(key, item, newSize)] + old(Recency())[..kept]
      // What fits is not evicted.
      ensures (capacity <= 0 || |old(Recency())| < capacity) && (maxSizeBytes <= 0 || old(currentSize) + newSize <= maxSizeBytes) ==>
                Recency() == [Entry(key, item, newSize)] + old(Recency())
    {
      hide InStep, Sum, Drop, Keys, ItemSize, DistinctKeys, EntryList.Valid, PrefixTrie.Valid;
      ghost var before := Recency();
      CounterIsSum();
      while lruList.elems != [] &&
            ((capacity > 0 && |lruList.elems| >= capacity)
             || (maxSizeBytes > 0 && currentSize + newSize > maxSizeBytes))
        invariant Valid() && Repr() <= old(Repr()) && latest == old(latest) && key !in m
        invariant |Recency()| <= |before| && Recency() == before[..|Recency()|]
        invariant forall j | |Recency()| < j <= |before| :: !Admits(capacity, maxSizeBytes, newSize, before[..j])
        decreases |Recency()|
      {
        CounterIsSum();
        assert !Admits(capacity, maxSizeBytes, newSize, before[..|Recency()|]);
        Evict();
      }
      CounterIsSum();
      ghost var kept: nat := |Recency()|;
      assert LongestAdmitted(capacity, maxSizeBytes, newSize, before, kept);
      AddNew(key, item, newSize);
    }

    method Set(key: string, data: Option<CacheItem>) returns (r: Result<()>)
      requires Valid()
      modifies Repr()
      ensures Valid() && fresh(Repr() - old(Repr()))
      ensures r.Err? <==> key == "" || data.None?
      ensures r.Err? ==> Recency() == old(Recency()) && latest == old(latest)
      ensures r.Ok? ==> latest == old(latest)[key := data.value]
      // An existing key is updated in place and moved to the front; nothing is evicted, so the byte
      // limit is kept exactly if the sum with the new size in place of the old one keeps it.
      ensures r.Ok? && key in Keys(old(Recency())) ==>
                exists i | 0 <= i < |old(Recency())| ::
                  && old(Recency())[i].key == key
                  && Recency() == [Entry(key, data.value, ItemSize(codec, data.value))] + Drop(old(Recency()), i)
      ensures r.Ok? && key in Keys(old(Recency())) ==>
                && key in old(latest)
                && currentSize == old(currentSize) - ItemSize(codec, old(latest)[key]) + ItemSize(codec, data.value)
      // A new key joins the longest most-recent prefix that leaves room for it.
      ensures r.Ok? && key !in Keys(old(Recency())) ==>
                exists kept: nat ::
                  && kept <= |old(Recency())|
                  && LongestAdmitted(capacity, maxSizeBytes, ItemSize(codec, data.value), old(Recency()), kept)
                  && Recency() == [Entry(key, data.value, ItemSize(codec, data.value))] + old(Recency())[..kept]
      ensures r.Ok? && key !in Keys(old(Recency()))
              && (capacity <= 0 || |old(Recency())| < capacity)
              && (maxSizeBytes <= 0 || old(currentSize) + ItemSize(codec, data.value) <= maxSizeBytes) ==>
                Recency() == [Entry(key, data.value, ItemSize(codec, data.value))] + old(Recency())
      // So the byte limit is kept exactly if the new item itself fits it.
      ensures r.Ok? && key !in Keys(old(Recency())) && maxSizeBytes > 0 ==>
                (currentSize <= maxSizeBytes <==> ItemSize(codec, data.value) <= maxSizeBytes)
      ensures r.Ok? ==> key in Keys(Recency()) && Keys(Recency()) <= Keys(old(Recency())) + {key}
    {
      hide InStep, Sum, Drop, Keys, ItemSize, DistinctKeys, EntryList.Valid, PrefixTrie.Valid;
      if key == "" {
        return Err("cache key cannot be empty");
      }
      if data.None? {
        return Err("cannot cache nil CacheItem");
      }
      ghost var _ := Locate(key);
      var newSize := ItemSize(codec, data.value);
      ghost var before := Recency();
      if key in m {
        UpdateExisting(key, data.value, newSize);
        ghost var i: nat :| i < |before| && before[i].key == key && Recency() == [Entry(key, data.value, newSize)] + Drop(before, i);
        KeysOfDrop(before, Recency()[0], i);
        return Ok(());
      }
      AddEvicting(key, data.value, newSize);
      ghost var kept: nat :| kept <= |before| && LongestAdmitted(capacity, maxSizeBytes, newSize, before, kept)
                             && Recency() == [Entry(key, data.value, newSize)] + before[..kept];
      CounterIsSum();
      if maxSizeBytes > 0 {
        NewEntryFitsIff(capacity, maxSizeBytes, before, kept, Entry(key, data.value, newSize));
      }
      KeysOfPart(before, Recency()[0], before[..kept]);
      r := Ok(());
    }

    lemma CounterIsSum()
      requires Valid()
      ensures currentSize == Sum(Recency()) && |Recency()| == |lruList.elems|
    {
    }
  }

  /** What is kept of the list, in numbers: with the new entry it is within both limits, unless nothing
      is kept; and no longer part of the list would have been. */
  lemma KeptInNumbers(capacity: int, maxSizeBytes: int, newSize: nat, s: seq<Entry>, kept: nat)
    requires LongestAdmitted(capacity, maxSizeBytes, newSize, s, kept)
    ensures kept <= |s|
    ensures kept > 0 ==> (capacity > 0 ==> kept + 1 <= capacity) && (maxSizeBytes > 0 ==> Sum(s[..kept]) + newSize <= maxSizeBytes)
    ensures kept < |s| ==>
              (0 < capacity < kept + 2) || (maxSizeBytes > 0 && Sum(s[..kept]) + s[kept].size + newSize > maxSizeBytes)
  {
    if kept < |s| {
      assert s[..kept + 1] == s[..kept] + [s[kept]];
      assert !Admits(capacity, maxSizeBytes, newSize, s[..kept + 1]);
      hide Sum;
      SumAppend(s[..kept], [s[kept]]);
      SumSingle(s[kept]);
    }
  }

  /** After a new key joined, the byte limit holds if and only if the new entry itself fits it; and
      if it does not, the new entry is alone. */
  lemma NewEntryFitsIff(capacity: int, maxSizeBytes: int, s: seq<Entry>, kept: nat, e: Entry)
    requires LongestAdmitted(capacity, maxSizeBytes, e.size, s, kept) && maxSizeBytes > 0
    ensures Sum([e] + s[..kept]) <= maxSizeBytes <==> e.size <= maxSizeBytes
    ensures e.size > maxSizeBytes ==> kept == 0
  {
    hide Sum;
    SumAppend([e], s[..kept]);
    SumSingle(e);
    if kept == 0 { assert Sum(s[..kept]) == 0 by { SumNothing(s); } }
  }

  /** After an update nothing was evicted: the limit holds if and only if the new entry fits what the
      other entries leave of it. */
  lemma UpdatedEntryFitsIff(maxSizeBytes: int, s: seq<Entry>, i: nat, e: Entry)
    requires i < |s|
    ensures Sum([e] + Drop(s, i)) <= maxSizeBytes <==> e.size <= maxSizeBytes - (Sum(s) - s[i].size)
  {
    hide Sum, Drop;
    SumDrop(s, i);
    SumAppend([e], Drop(s, i));
    SumSingle(e);
  }

  /** The byte limit exceeded by an update: the small item fits it and is stored, and then the big
      one takes its place. */
  method UpdateExceedsLimit(codec: MetadataCodec, maxSizeBytes: int, key: string, small: CacheItem, big: CacheItem)
      returns (first: int, second: int)
    requires 0 < maxSizeBytes && key != "" && ItemSize(codec, small) <= maxSizeBytes < ItemSize(codec, big)
    ensures first == ItemSize(codec, small) <= maxSizeBytes < second == ItemSize(codec, big)
  {
    hide Sum, Drop, ItemSize, Keys, InStep, DistinctKeys, EntryList.Valid, PrefixTrie.Valid;
    var cache := new MemoryCache(codec, 0, maxSizeBytes);
    assert key !in Keys(cache.Recency()) by { NoKeys(); }
    var stored := cache.Set(key, Some(small));
    cache.CounterIsSum();
    SumSingle(Entry(key, small, ItemSize(codec, small)));
    assert cache.Recency() == [Entry(key, small, ItemSize(codec, small))];
    first := cache.currentSize;
    stored := cache.Set(key, Some(big));
    second := cache.currentSize;
  }

  lemma NoKeys()
    ensures Keys([]) == {}
  {
  }

  lemma SumNothing(s: seq<Entry>)
    ensures Sum(s[..0]) == 0
  {
  }
}
