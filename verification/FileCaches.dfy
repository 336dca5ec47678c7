/** The two-level slice cache: a memory cache over files that expire, get cleaned up, and may
    have been written only in part. The disk is a map from keys to files. */
module FileCaches {
  import opened Text
  import opened CacheItems
  import opened MemoryCaches
  import PrefixTries

  /** Times are in nanoseconds. */
  const SECOND := 1_000_000_000
  const CLEANUP_INTERVAL := 300

  datatype DiskFile = DiskFile(content: seq<byte>, modTime: int)

  type Disk = map<string, DiskFile>

  datatype FileInfo = FileInfo(path: string, size: nat, modTime: int)

  /** What the file system lets one operation do: whether the file can be opened, and how many
      bytes it then accepts. */
  datatype Io = Io(opens: bool, room: nat)

  /** The total size of some files. */
  ghost function SizeOf(disk: Disk, ks: set<string>): nat
    requires ks <= disk.Keys
  {
    if ks == {} then 0
    else
      var k :| k in ks;
      |disk[k].content| + SizeOf(disk, ks - {k})
  }

  lemma {:induction false} SizeWithout(disk: Disk, ks: set<string>, k: string)
    requires ks <= disk.Keys && k in ks
    ensures SizeOf(disk, ks) == |disk[k].content| + SizeOf(disk, ks - {k})
    decreases ks
  {
    var c :| c in ks && SizeOf(disk, ks) == |disk[c].content| + SizeOf(disk, ks - {c});
    if c != k {
      SizeWithout(disk, ks - {c}, k);
      SizeWithout(disk, ks - {k}, c);
      assert ks - {c} - {k} == ks - {k} - {c};
    }
  }

  lemma {:induction false} SizeSameFiles(disk: Disk, disk': Disk, ks: set<string>)
    requires ks <= disk.Keys && ks <= disk'.Keys
    requires forall k | k in ks :: disk[k] == disk'[k]
    ensures SizeOf(disk, ks) == SizeOf(disk', ks)
    decreases ks
  {
    if ks != {} {
      var k :| k in ks;
      SizeWithout(disk, ks, k);
      SizeWithout(disk', ks, k);
      SizeSameFiles(disk, disk', ks - {k});
    }
  }

  predicate SortedByAge(files: seq<FileInfo>) {
    forall i, j | 0 <= i < j < |files| :: files[i].modTime <= files[j].modTime
  }

  /** The position of an oldest file. */
  method Oldest(files: seq<FileInfo>) returns (at: nat)
    requires files != []
    ensures at < |files| && forall i | 0 <= i < |files| :: files[at].modTime <= files[i].modTime
  {
    at := 0;
    for i := 1 to |files|
      invariant at < |files|
      invariant forall j | 0 <= j < i :: files[at].modTime <= files[j].modTime
    {
      if files[i].modTime < files[at].modTime {
        at := i;
      }
    }
  }

  /** A permutation of the files, oldest first; the order of equally old files is unspecified. */
  method SortByAge(files: seq<FileInfo>) returns (sorted: seq<FileInfo>)
    ensures SortedByAge(sorted) && multiset(sorted) == multiset(files)
  {
    var rest := files;
    sorted := [];
    while rest != []
      invariant SortedByAge(sorted) && multiset(sorted) + multiset(rest) == multiset(files)
      invariant forall a, b | a in sorted && b in rest :: a.modTime <= b.modTime
      decreases |rest|
    {
      var at := Oldest(rest);
      TakeOut(sorted, rest, at);
      sorted := sorted + [rest[at]];
      rest := rest[..at] + rest[at + 1..];
    }
  }

  lemma TakeOut(sorted: seq<FileInfo>, rest: seq<FileInfo>, at: nat)
    requires at < |rest|
    ensures var (sorted', rest') := (sorted + [rest[at]], rest[..at] + rest[at + 1..]);
            && multiset(sorted') + multiset(rest') == multiset(sorted) + multiset(rest)
            && (forall a | a in sorted' :: a in sorted || a == rest[at])
            && (forall b | b in rest' :: b in rest)
  {
    assert rest == rest[..at] + [rest[at]] + rest[at + 1..];
  }

  /** The keys whose files have not expired. */
  function Young(disk: Disk, cutoff: int): (young: set<string>)
    ensures young <= disk.Keys
  {
    set k | k in disk && disk[k].modTime >= cutoff
  }

  lemma YoungMeans(disk: Disk, cutoff: int)
    ensures forall k :: k in Young(disk, cutoff) <==> k in disk && disk[k].modTime >= cutoff
  {
  }

  /** What a cleanup pass with a size limit does to the young files: it removes some of them,
      oldest first, and no more than needed. `stuck` are files whose removal fails. */
  ghost predicate EvictedByAge(disk: Disk, young: set<string>, stuck: set<string>, removed: set<string>, maxSize: int)
    requires young <= disk.Keys
  {
    && removed <= young - stuck
    // it got below the limit, or everything removable is gone
    && (SizeOf(disk, young - removed) <= maxSize || removed == young - stuck)
    // no removable file that stays is strictly older than one that went
    && (forall a, b | a in removed && b in young - removed - stuck :: disk[a].modTime <= disk[b].modTime)
    // without its last removal the pass would have stayed above the limit
    && (removed != {} ==> exists last | last in removed ::
          SizeOf(disk, young - (removed - {last})) > maxSize
          && forall a | a in removed :: disk[a].modTime <= disk[last].modTime)
  }

  /** What a pass leaves: it removes the expired files that it can, and `removed`. */
  ghost function AfterCleanup(disk: Disk, cutoff: int, stuck: set<string>, removed: set<string>): Disk {
    disk - (disk.Keys - Young(disk, cutoff) - stuck) - removed
  }

  function InfoOf(disk: Disk, k: string): FileInfo
    requires k in disk
  {
    FileInfo(k, |disk[k].content|, disk[k].modTime)
  }

  /** `files` lists each of the keys exactly once. */
  ghost predicate Lists(disk: Disk, files: seq<FileInfo>, ks: set<string>)
    requires ks <= disk.Keys
  {
    && (forall f | f in files :: f.path in ks && f == InfoOf(disk, f.path))
    && (forall k | k in ks :: InfoOf(disk, k) in files)
    && (forall f | f in files :: multiset(files)[f] == 1)
  }

  lemma RepeatedElement<T>(s: seq<T>, i: nat, j: nat)
    requires i < j < |s| && s[i] == s[j]
    ensures multiset(s)[s[i]] >= 2
  {
    assert s == s[..i] + [s[i]] + s[i + 1..j] + [s[j]] + s[j + 1..];
  }

  lemma ListsOncePerIndex(disk: Disk, files: seq<FileInfo>, ks: set<string>)
    requires ks <= disk.Keys && Lists(disk, files, ks)
    ensures forall i, j | 0 <= i < j < |files| :: files[i].path != files[j].path
  {
    assert forall i | 0 <= i < |files| :: files[i] in files;
    forall i, j | 0 <= i < j < |files| && files[i] == files[j]
      ensures multiset(files)[files[i]] >= 2
    {
      RepeatedElement(files, i, j);
    }
  }

  lemma ListsSorted(disk: Disk, files: seq<FileInfo>, sorted: seq<FileInfo>, ks: set<string>)
    requires ks <= disk.Keys && Lists(disk, files, ks) && multiset(sorted) == multiset(files)
    ensures Lists(disk, sorted, ks)
  {
    assert forall f :: f in sorted <==> f in multiset(files);
    assert forall f :: f in files <==> f in multiset(files);
  }

  lemma ListsOneMore(disk: Disk, files: seq<FileInfo>, ks: set<string>, k: string)
    requires k in disk && ks <= disk.Keys && Lists(disk, files, ks) && k !in ks
    ensures Lists(disk, files + [InfoOf(disk, k)], ks + {k})
  {
    var f := InfoOf(disk, k);
    assert f !in files;
    assert multiset(files)[f] == 0;
    var files' := files + [f];
    assert forall g :: g in files' <==> g in files || g == f;
    assert multiset(files') == multiset(files) + multiset{f};
  }

  /** The paths of the first i files. */
  ghost function Paths(files: seq<FileInfo>, i: nat): set<string>
    requires i <= |files|
  {
    set j | 0 <= j < i :: files[j].path
  }

  /** `content` is what a write of the item left in a file, complete or cut short. */
  ghost predicate CutOf(codec: MetadataCodec, content: seq<byte>, item: CacheItem) {
    && Storable(codec, item) && Keeps(codec, item)
    && if item.metadata.None? then content == []
       else exists n :: 0 <= n <= |Encoded(codec, item)| && content == Encoded(codec, item)[..n]
  }

  /** What the two levels hold. `latest` is the item of the last Set of a key, `written` that of the
      last Set that could open its file, `stale` are the keys for which the two may differ, and
      `kept` those that have stayed in memory since their last Set. */
  ghost predicate LevelsAgree(codec: MetadataCodec, disk: Disk, written: map<string, CacheItem>,
                              memory: map<string, CacheItem>, live: set<string>,
                              latest: map<string, CacheItem>, stale: set<string>, kept: set<string>)
  {
    && (forall k | k in disk :: k in written && CutOf(codec, disk[k].content, written[k]))
    && (forall k | k in latest && k !in stale :: k in written && written[k] == latest[k])
    && (forall k | k in live ::
          && k in memory && k in latest
          && if k in kept then memory[k] == latest[k] else k in written && memory[k] == written[k])
    && kept <= live && written.Keys <= latest.Keys
  }

  /** A file that decodes at all decodes to the item that was written. */
  lemma CutDecodesToItem(codec: MetadataCodec, content: seq<byte>, item: CacheItem)
    requires CutOf(codec, content, item)
    ensures Decoded(codec, content).item.Some? ==> Decoded(codec, content).item.value == item
  {
    hide Decoded, Encoded;
    if item.metadata.Some? {
      var n :| 0 <= n <= |Encoded(codec, item)| && content == Encoded(codec, item)[..n];
      if n < |Encoded(codec, item)| {
        StrictPrefixRejected(codec, item, n);
      } else {
        RoundTrip(codec, item, []);
        assert Encoded(codec, item) + [] == content;
      }
    } else {
      EmptyRejected(codec);
    }
  }

  lemma EmptyRejected(codec: MetadataCodec)
    ensures Decoded(codec, []).item.None?
  {
  }

  method ParseFile(codec: MetadataCodec, content: seq<byte>) returns (item: Option<CacheItem>)
    ensures item == Decoded(codec, content).item
  {
    var file := new ByteReader(content);
    assert file.Rest() == content;
    var read;
    item, read := ReadFrom(codec, file);
  }

  class FileCache {
    const codec: MetadataCodec
    const memCache: MemoryCache
    const maxSizeBytes: int
    const maxAge: int
    var disk: Disk
    var currentSize: int
    var lastCleanup: int
    /** The item of the latest Set of every key ever set. */
    ghost var latest: map<string, CacheItem>
    /** The item of the last Set of each key that could open its file. */
    ghost var written: map<string, CacheItem>
    /** The keys whose latest Set could not open their file. */
    ghost var stale: set<string>
    /** The keys that have stayed in memory since their latest Set. */
    ghost var kept: set<string>

    ghost function Repr(): set<object>
      reads this, memCache, memCache.lruList, memCache.prefixTrie
    {
      {this} + memCache.Repr()
    }

    ghost predicate Valid()
      reads this, memCache, memCache.lruList, memCache.prefixTrie, memCache.Repr()
    {
      && this !in memCache.Repr()
      && memCache.codec == codec && memCache.Valid()
      && LevelsAgree(codec, disk, written, memCache.latest, Live(), latest, stale, kept)
    }

    /** The keys in memory. */
    ghost function Live(): set<string>
      reads memCache.lruList
    {
      Keys(memCache.Recency())
    }

    constructor (codec: MetadataCodec, maxSizeBytes: int, maxAge: int)
      ensures Valid() && fresh(Repr())
      ensures this.codec == codec && this.maxSizeBytes == maxSizeBytes && this.maxAge == maxAge
      ensures disk == map[] && latest == map[] && stale == {} && Live() == {} && memCache.maxSizeBytes == 100 * 1024 * 1024
    {
      hide MemoryCache.Valid, LevelsAgree;
      this.codec, this.maxSizeBytes, this.maxAge := codec, maxSizeBytes, maxAge;
      memCache := new MemoryCache(codec, 1000, 100 * 1024 * 1024);
      disk, currentSize, lastCleanup := map[], 0, 0;
      latest, written, stale, kept := map[], map[], {}, {};
      new;
      assert this !in memCache.prefixTrie.Repr();
      assert this !in memCache.Repr();
      hide MemoryCache.Repr;
      NothingStored(codec, memCache.latest);
      assert Live() == {};
    }

    /** First loop of a cleanup pass: removes expired files and lists the others. */
    method CollectYoung(cutoff: int, stuck: set<string>) returns (files: seq<FileInfo>, totalSize: nat)
      modifies `disk
      ensures disk == old(disk) - (old(disk).Keys - Young(old(disk), cutoff) - stuck)
      ensures Lists(old(disk), files, Young(old(disk), cutoff))
      ensures totalSize == SizeOf(old(disk), Young(old(disk), cutoff))
    {
      hide Lists, SizeOf;
      ghost var before, young := disk, Young(disk, cutoff);
      files, totalSize := [], 0;
      var todo := disk.Keys;
      ghost var listed: set<string> := {};
      assert Lists(before, files, listed) by { ListsNothing(before); }
      assert SizeOf(before, listed) == 0 by { ListsNothing(before); }
      while todo != {}
        invariant todo <= before.Keys
        invariant listed == young - todo
        invariant disk == before - (before.Keys - young - todo - stuck)
        invariant Lists(before, files, listed) && totalSize == SizeOf(before, listed)
      {
        var k :| k in todo;
        if disk[k].modTime < cutoff {
          if k !in stuck {
            disk := disk - {k};
          }
        } else {
          ListsOneMore(before, files, listed, k);
          SizeWithout(before, listed + {k}, k);
          assert listed + {k} - {k} == listed;
          files := files + [InfoOf(disk, k)];
          totalSize := totalSize + |disk[k].content|;
          listed := listed + {k};
        }
        todo := todo - {k};
      }
      assert listed == young;
    }

    lemma ListsNothing(d: Disk)
      ensures Lists(d, [], {}) && SizeOf(d, {}) == 0
    {
    }

    /** Second loop: removes files in age order until the total fits. */
    method RemoveOldest(files: seq<FileInfo>, totalSize: nat, stuck: set<string>, ghost before: Disk, ghost young: set<string>)
      returns (rest: nat, ghost removed: set<string>)
      requires young <= before.Keys && Lists(before, files, young) && SortedByAge(files)
      requires totalSize == SizeOf(before, young)
      modifies `disk
      ensures EvictedByAge(before, young, stuck, removed, maxSizeBytes)
      ensures disk == old(disk) - removed && rest == SizeOf(before, young - removed)
    {
      hide SizeOf, Lists, Paths, SortedByAge;
      rest, removed := totalSize, {};
      NoPaths(files);
      var i := 0;
      ghost var last := "";
      assert young - {} == young;
      while i < |files| && rest > maxSizeBytes
        invariant i <= |files|
        invariant removed == Paths(files, i) - stuck && removed <= young
        invariant disk == old(disk) - removed && rest == SizeOf(before, young - removed)
        invariant removed != {} ==>
                    && last in removed && SizeOf(before, young - (removed - {last})) > maxSizeBytes
                    && forall a | a in removed :: before[a].modTime <= before[last].modTime
      {
        var f := files[i];
        NextPath(before, files, young, i);
        if f.path !in stuck {
          SizeWithout(before, young - removed, f.path);
          assert young - removed - {f.path} == young - (removed + {f.path});
          assert removed + {f.path} - {f.path} == removed;
          disk := disk - {f.path};
          removed := removed + {f.path};
          last := f.path;
          rest := rest - f.size;
        }
        i := i + 1;
      }
      LaterFilesAreYounger(before, files, young, i, removed, stuck);
    }

    lemma NoPaths(files: seq<FileInfo>)
      ensures Paths(files, 0) == {}
    {
    }

    lemma NextPath(before: Disk, files: seq<FileInfo>, young: set<string>, i: nat)
      requires young <= before.Keys && Lists(before, files, young) && SortedByAge(files) && i < |files|
      ensures var f := files[i];
              && f.path in young && f == InfoOf(before, f.path) && f.path !in Paths(files, i)
              && Paths(files, i + 1) == Paths(files, i) + {f.path}
              && forall a | a in Paths(files, i) :: a in young && before[a].modTime <= f.modTime
    {
      ListsOncePerIndex(before, files, young);
      assert forall j | 0 <= j < |files| :: files[j] in files;
    }

    lemma LaterFilesAreYounger(before: Disk, files: seq<FileInfo>, young: set<string>, i: nat, removed: set<string>, stuck: set<string>)
      requires young <= before.Keys && Lists(before, files, young) && SortedByAge(files)
      requires i <= |files| && removed == Paths(files, i) - stuck
      ensures forall a, b | a in removed && b in young - removed - stuck :: before[a].modTime <= before[b].modTime
      ensures i == |files| ==> removed == young - stuck
    {
      forall b | b in young
        ensures exists j :: 0 <= j < |files| && files[j].path == b
      {
        assert InfoOf(before, b) in files;
      }
      assert forall j | 0 <= j < |files| :: files[j] in files;
      forall a, b | a in removed && b in young - removed - stuck
        ensures before[a].modTime <= before[b].modTime
      {
        var j :| 0 <= j < i && files[j].path == a;
        var k :| 0 <= k < |files| && files[k].path == b;
        assert k >= i;
      }
      if i == |files| {
        forall b | b in young - stuck
          ensures b in removed
        {
          var k :| 0 <= k < |files| && files[k].path == b;
        }
      }
    }

    /** Whether a cleanup pass gets past its two early exits. */
    predicate CleanupDue(now: int)
      reads this
    {
      maxSizeBytes > 0 && now / SECOND - lastCleanup >= CLEANUP_INTERVAL
    }

    method Cleanup(now: int, stuck: set<string>) returns (ghost removed: set<string>)
      requires Valid()
      modifies `disk, `currentSize, `lastCleanup
      ensures Valid()
      ensures !old(CleanupDue(now)) ==>
                removed == {} && disk == old(disk) && currentSize == old(currentSize) && lastCleanup == old(lastCleanup)
      ensures old(CleanupDue(now)) ==>
                var young := Young(old(disk), now - maxAge);
                && EvictedByAge(old(disk), young, stuck, removed, maxSizeBytes)
                && disk == AfterCleanup(old(disk), now - maxAge, stuck, removed)
                && currentSize == SizeOf(old(disk), young - removed)
                && lastCleanup == now / SECOND
      // In numbers: at most every 300 seconds, if there is a limit; a file that stays is at most maxAge
      // old, unless its removal failed.
      ensures maxSizeBytes <= 0 || now / 1_000_000_000 - old(lastCleanup) < 300 ==> disk == old(disk)
      ensures maxSizeBytes > 0 && now / 1_000_000_000 - old(lastCleanup) >= 300 ==>
                && lastCleanup == now / 1_000_000_000
                && forall k | k in disk :: k in old(disk) && disk[k] == old(disk)[k] && (k in stuck || now - disk[k].modTime <= maxAge)
    {
      hide Lists, SizeOf, EvictedByAge, LevelsAgree, MemoryCache.Valid, Young;
      removed := {};
      if maxSizeBytes <= 0 || now / SECOND - lastCleanup < CLEANUP_INTERVAL {
        return;
      }
      ghost var before, young := disk, Young(disk, now - maxAge);
      var files, totalSize := CollectYoung(now - maxAge, stuck);
      var sorted := SortByAge(files);
      ListsSorted(before, files, sorted, young);
      totalSize, removed := RemoveOldest(sorted, totalSize, stuck, before, young);
      currentSize := totalSize;
      lastCleanup := now / SECOND;
      FewerFiles(codec, before, disk, written, memCache.latest, Live(), latest, stale, kept);
      YoungMeans(before, now - maxAge);
    }

    predicate Unexpired(key: string, now: int)
      reads this
    {
      key in disk && now - disk[key].modTime <= maxAge
    }

    /** Whether a read of the file of `key` yields an item. */
    predicate OnDisk(key: string, now: int, io: Io)
      reads this
    {
      io.opens && Unexpired(key, now) && Decoded(codec, disk[key].content).item.Some?
    }

    /** Whether a read of the file of `key` is an error rather than a miss. */
    predicate Unreadable(key: string, now: int, io: Io)
      reads this
    {
      !io.opens || (Unexpired(key, now) && Decoded(codec, disk[key].content).item.None?)
    }

    /** The item of the file of `key`, unless it is absent, expired or unreadable. */
    method ReadFile(key: string, now: int, io: Io) returns (r: Result<Option<CacheItem>>)
      requires Valid()
      modifies `disk
      ensures Valid() && Repr() == old(Repr())
      ensures r.Ok? && r.value.Some? ==>
                key in written && key in latest && r.value.value == written[key] && (key !in stale ==> written[key] == latest[key])
      ensures r.Err? <==> old(Unreadable(key, now, io))
      ensures r.Ok? && r.value.Some? <==> old(OnDisk(key, now, io))
      ensures disk == if io.opens && key in old(disk) && now - old(disk)[key].modTime > maxAge then old(disk) - {key} else old(disk)
    {
      hide Decoded, MemoryCache.Valid, CutOf, LevelsAgree, Encoded, TakeBlock, Keys;
      FileHolds(codec, disk, written, memCache.latest, Live(), latest, stale, kept, key);
      FewerFiles(codec, disk, disk - {key}, written, memCache.latest, Live(), latest, stale, kept);
      if !io.opens {
        return Err("failed to open cache file");
      }
      if key !in disk {
        return Ok(None);
      }
      if now - disk[key].modTime > maxAge {
        disk := disk - {key};
        return Ok(None);
      }
      var item := ParseFile(codec, disk[key].content);
      if item.None? {
        return Err("failed to read cache item");
      }
      CutDecodesToItem(codec, disk[key].content, written[key]);
      r := Ok(item);
    }

    method GetFromMemory(key: string) returns (r: Result<Option<CacheItem>>)
      requires Valid() && key != ""
      modifies memCache.lruList
      ensures Valid() && Repr() == old(Repr()) && r.Ok? && Live() == old(Live())
      ensures r.value.Some? <==> key in Live()
      ensures r.value.Some? ==> key in latest && HitIs(key, r.value.value)
    {
      hide MemoryCache.Valid, CutOf, LevelsAgree, Keys, ToFront;
      r := memCache.Get(key);
      if r.value.Some? {
        MemoryHit(codec, disk, written, memCache.latest, Live(), latest, stale, kept, key);
      }
    }

    /** A hit of this key is its latest item, if that could be written to its file or has not left
        memory since, and else the last item that could be written. */
    ghost predicate HitIs(key: string, item: CacheItem)
      requires key in latest
      reads this
    {
      if key in kept || key !in stale then item == latest[key] else key in written && item == written[key]
    }

    method Get(key: string, now: int, io: Io) returns (r: Result<Option<CacheItem>>)
      requires Valid()
      modifies Repr()
      ensures Valid() && fresh(Repr() - old(Repr()))
      ensures latest == old(latest) && stale == old(stale) && written == old(written)
      ensures kept == old(kept) * Live() && Live() <= old(Live()) + {key}
      ensures if r.Ok? && r.value.Some? then key in Live() else Live() == old(Live()) && kept == old(kept)
      ensures key == "" ==> r.Err?
      ensures r.Ok? && r.value.Some? ==> key in latest && old(key in latest && HitIs(key, r.value.value))
      // So a hit is the latest item exactly if that reached its file, or has not left memory since, or
      // is the same as the last item that reached the file.
      ensures r.Ok? && r.value.Some? ==>
                (r.value.value == latest[key] <==>
                   key !in stale || key in old(kept) || (key in written && written[key] == latest[key]))
      // It hits exactly a memory entry or a file that can be read, and fails exactly on one that cannot.
      ensures key != "" ==>
                && (r.Ok? && r.value.Some? <==> key in old(Live()) || old(OnDisk(key, now, io)))
                && (r.Err? <==> key !in old(Live()) && old(Unreadable(key, now, io)))
      ensures forall k | k in disk :: k in old(disk) && disk[k] == old(disk)[k]
      ensures forall k | old(Unexpired(k, now)) :: k in disk
      // In numbers: what is not in memory is hit only from a file that is at most maxAge old, and an
      // older file that is met is a miss and goes.
      ensures r.Ok? && r.value.Some? && key !in old(Live()) ==> key in old(disk) && now - old(disk)[key].modTime <= maxAge
      ensures key != "" && key !in old(Live()) && io.opens && key in old(disk) && now - old(disk)[key].modTime > maxAge ==>
                r == Ok(None) && disk == old(disk) - {key}
      ensures key != "" && key !in old(Live()) && io.opens && key !in old(disk) ==> r == Ok(None) && disk == old(disk)
    {
      hide Valid, MemoryCache.Valid, CutOf, LevelsAgree, PrefixTries.PrefixTrie.Valid, EntryList.Valid, Keys, Decoded;
      KeptIsLive();
      if key == "" {
        return Err("cache key cannot be empty");
      }
      r := GetFromMemory(key);
      if r.value.None? {
        r := GetFromFile(key, now, io);
      }
    }

    /** After a miss in memory: the file's item, which then enters memory. */
    method GetFromFile(key: string, now: int, io: Io) returns (r: Result<Option<CacheItem>>)
      requires Valid() && key != "" && key !in Live()
      modifies Repr()
      ensures Valid() && fresh(Repr() - old(Repr()))
      ensures latest == old(latest) && stale == old(stale) && written == old(written)
      ensures kept == old(kept) * Live() && Live() <= old(Live()) + {key}
      ensures if r.Ok? && r.value.Some? then key in Live() else Live() == old(Live()) && kept == old(kept)
      ensures r.Ok? && r.value.Some? ==>
                key in written && key in latest && r.value.value == written[key] && (key !in stale ==> written[key] == latest[key])
      ensures r.Ok? && r.value.Some? <==> old(OnDisk(key, now, io))
      ensures r.Err? <==> old(Unreadable(key, now, io))
      ensures disk == if io.opens && key in old(disk) && now - old(disk)[key].modTime > maxAge then old(disk) - {key} else old(disk)
    {
      hide Valid, MemoryCache.Valid, CutOf, LevelsAgree, PrefixTries.PrefixTrie.Valid, EntryList.Valid, Keys, Decoded;
      KeptIsLive();
      r := ReadFile(key, now, io);
      if r.Ok? && r.value.Some? {
        Refill(key, r.value.value);
      }
    }

    lemma Footprint()
      ensures {this, memCache, memCache.lruList, memCache.prefixTrie} + memCache.Repr() <= Repr()
    {
    }

    lemma KeptIsLive()
      requires Valid()
      ensures kept <= Live() && kept * Live() == kept
    {
    }

    /** Stores an item read from disk in the memory cache. */
    method Refill(key: string, item: CacheItem)
      requires Valid() && key != "" && key !in Live()
      requires key in latest && key in written && item == written[key]
      modifies memCache.Repr(), `kept
      ensures Valid() && fresh(Repr() - old(Repr()))
      ensures kept == old(kept) * Live() && Live() <= old(Live()) + {key} && key in Live()
    {
      hide MemoryCache.Valid, CutOf, LevelsAgree, LongestAdmitted, Keys, Drop, ItemSize;
      ghost var memory, live := memCache.latest, Live();
      var stored := memCache.Set(key, Some(item));
      MemoryRefilled(codec, disk, written, memory, live, latest, stale, kept, key, item, Live());
      kept := kept * Live();
    }

    /** The item alone exceeds what memory holds, so storing it empties the rest. */
    predicate TooLarge(item: CacheItem) {
      memCache.maxSizeBytes > 0 && ItemSize(codec, item) > memCache.maxSizeBytes
    }

    /** First half of Set: until the file is rewritten, it may hold an older item. */
    method StoreInMemory(key: string, item: CacheItem)
      requires Valid() && key != ""
      modifies memCache.Repr(), `latest, `stale, `kept
      ensures Valid() && fresh(Repr() - old(Repr()))
      ensures latest == old(latest)[key := item] && stale == old(stale) + {key}
      ensures kept == old(kept) * Live() + {key} && Live() <= old(Live()) + {key}
      ensures key !in old(Live()) && TooLarge(item) ==> Live() == {key}
    {
      hide MemoryCache.Valid, CutOf, LevelsAgree, LongestAdmitted, Keys, Drop, ItemSize;
      ghost var memory, live, recency := memCache.latest, Live(), memCache.Recency();
      var stored := memCache.Set(key, Some(item));
      if key !in live {
        ghost var n: nat :| n <= |recency| && LongestAdmitted(memCache.capacity, memCache.maxSizeBytes, ItemSize(codec, item), recency, n)
                            && memCache.Recency() == [Entry(key, item, ItemSize(codec, item))] + recency[..n];
        if TooLarge(item) {
          NewEntryFitsIff(memCache.capacity, memCache.maxSizeBytes, recency, n, Entry(key, item, ItemSize(codec, item)));
          OnlyKey(memCache.Recency());
        }
      }
      SetInMemory(codec, disk, written, memory, live, latest, stale, kept, key, item, Live());
      latest := latest[key := item];
      stale := stale + {key};
      kept := kept * Live() + {key};
    }

    /** Second half of Set: creates or truncates the file and writes the item. */
    method WriteFile(key: string, item: CacheItem, now: int, io: Io) returns (r: Result<()>)
      requires Valid() && Storable(codec, item) && Keeps(codec, item)
      requires key in latest && latest[key] == item && key in kept
      modifies `disk, `currentSize, `written, `stale
      ensures Valid() && Repr() == old(Repr())
      ensures stale == if io.opens then old(stale) - {key} else old(stale)
      ensures written == if io.opens then old(written)[key := item] else old(written)
      ensures r.Ok? <==> io.opens && item.metadata.Some? && |Encoded(codec, item)| <= io.room
      ensures r.Ok? ==> disk == old(disk)[key := DiskFile(Encoded(codec, item), now)]
      ensures !io.opens ==> disk == old(disk)
      ensures disk - {key} == old(disk) - {key}
      ensures currentSize == if r.Ok? then old(currentSize) + |Encoded(codec, item)| else old(currentSize)
    {
      hide MemoryCache.Valid, LevelsAgree, Encoded, CutOf, Storable, Keys;
      if !io.opens {
        return Err("failed to create cache file");
      }
      var content, ok := EncodeFile(codec, item, io.room);
      PutFile(key, item, DiskFile(content, now), ok);
      r := if ok then Ok(()) else Err("failed to write cache item");
    }

    /** The file now has this content, and its size is counted if it is complete. */
    method PutFile(key: string, item: CacheItem, file: DiskFile, complete: bool)
      requires Valid() && CutOf(codec, file.content, item)
      requires key in latest && latest[key] == item && key in kept
      modifies `disk, `currentSize, `written, `stale
      ensures Valid() && Repr() == old(Repr())
      ensures stale == old(stale) - {key} && written == old(written)[key := item] && disk == old(disk)[key := file]
      ensures currentSize == old(currentSize) + if complete then |file.content| else 0
    {
      hide MemoryCache.Valid, LevelsAgree, CutOf, Keys;
      FileRewritten(codec, disk, written, memCache.latest, Live(), latest, stale, kept, key, item, file);
      disk := disk[key := file];
      written := written[key := item];
      stale := stale - {key};
      if complete {
        currentSize := currentSize + |file.content|;
      }
    }

    /** Whether a Set of an item of this size runs a cleanup pass. */
    predicate CleansUp(size: nat, now: int)
      reads this
    {
      maxSizeBytes > 0 && currentSize + size > maxSizeBytes && CleanupDue(now)
    }

    /** `removed` are the unexpired files that the cleanup pass of this Set removes. */
    method Set(key: string, data: Option<CacheItem>, now: int, io: Io, stuck: set<string>)
      returns (r: Result<()>, ghost removed: set<string>)
      requires Valid() && (data.Some? ==> Storable(codec, data.value) && Keeps(codec, data.value))
      modifies Repr()
      ensures Valid() && fresh(Repr() - old(Repr()))
      ensures key == "" || data.None? ==>
                r.Err? && disk == old(disk) && latest == old(latest) && stale == old(stale) && written == old(written)
                && kept == old(kept)
      ensures key != "" && data.Some? ==>
                && latest == old(latest)[key := data.value]
                && stale == (if io.opens then old(stale) - {key} else old(stale) + {key})
                && written == (if io.opens then old(written)[key := data.value] else old(written))
                && kept == old(kept) * Live() + {key} && Live() <= old(Live()) + {key}
                && (r.Ok? <==> io.opens && data.value.metadata.Some? && |Encoded(codec, data.value)| <= io.room)
                && (r.Ok? ==> key in disk && disk[key] == DiskFile(Encoded(codec, data.value), now))
      // The other files are those that a cleanup pass leaves, if one is due, and else all of them.
      ensures key != "" && data.Some? ==>
                var due := old(CleansUp(ItemSize(codec, data.value), now));
                var young := Young(old(disk), now - maxAge);
                var left := if due then AfterCleanup(old(disk), now - maxAge, stuck, removed) else old(disk);
                && (due ==> EvictedByAge(old(disk), young, stuck, removed, maxSizeBytes))
                && disk - {key} == left - {key} && (!io.opens ==> disk == left)
      // The counter is what the pass found, or what it was, and the new file.
      ensures key != "" && data.Some? ==>
                var due := old(CleansUp(ItemSize(codec, data.value), now));
                currentSize == (if due then SizeOf(old(disk), Young(old(disk), now - maxAge) - removed) else old(currentSize))
                               + (if r.Ok? then |Encoded(codec, data.value)| else 0)
      ensures key != "" && data.Some? && key !in old(Live()) && TooLarge(data.value) ==> Live() == {key}
    {
      hide Valid, MemoryCache.Valid, LevelsAgree, Encoded, Storable, EvictedByAge, AfterCleanup, SizeOf, Young, Keys, ItemSize;
      removed := {};
      if key == "" {
        return Err("cache key cannot be empty"), {};
      }
      if data.None? {
        return Err("cannot cache nil CacheItem"), {};
      }
      r, removed := SetItem(key, data.value, now, io, stuck);
    }

    method SetItem(key: string, item: CacheItem, now: int, io: Io, stuck: set<string>)
      returns (r: Result<()>, ghost removed: set<string>)
      requires Valid() && key != "" && Storable(codec, item) && Keeps(codec, item)
      modifies Repr()
      ensures Valid() && fresh(Repr() - old(Repr()))
      ensures latest == old(latest)[key := item]
      ensures stale == (if io.opens then old(stale) - {key} else old(stale) + {key})
      ensures written == (if io.opens then old(written)[key := item] else old(written))
      ensures kept == old(kept) * Live() + {key} && Live() <= old(Live()) + {key}
      ensures r.Ok? <==> io.opens && item.metadata.Some? && |Encoded(codec, item)| <= io.room
      ensures r.Ok? ==> key in disk && disk[key] == DiskFile(Encoded(codec, item), now)
      ensures var due := old(CleansUp(ItemSize(codec, item), now));
              var left := if due then AfterCleanup(old(disk), now - maxAge, stuck, removed) else old(disk);
              && (due ==> EvictedByAge(old(disk), Young(old(disk), now - maxAge), stuck, removed, maxSizeBytes))
              && disk - {key} == left - {key} && (!io.opens ==> disk == left)
      ensures var due := old(CleansUp(ItemSize(codec, item), now));
              currentSize == (if due then SizeOf(old(disk), Young(old(disk), now - maxAge) - removed) else old(currentSize))
                             + (if r.Ok? then |Encoded(codec, item)| else 0)
      ensures key !in old(Live()) && TooLarge(item) ==> Live() == {key}
    {
      hide Valid, MemoryCache.Valid, LevelsAgree, Encoded, Storable, EvictedByAge, AfterCleanup, SizeOf, Young, Keys, ItemSize;
      StoreInMemory(key, item);
      r, removed := StoreOnDisk(key, item, now, io, stuck);
    }

    /** The disk side of Set. */
    method StoreOnDisk(key: string, item: CacheItem, now: int, io: Io, stuck: set<string>)
      returns (r: Result<()>, ghost removed: set<string>)
      requires Valid() && Storable(codec, item) && Keeps(codec, item)
      requires key in latest && latest[key] == item && key in kept
      modifies `disk, `currentSize, `lastCleanup, `written, `stale
      ensures Valid() && Repr() == old(Repr())
      ensures stale == if io.opens then old(stale) - {key} else old(stale)
      ensures written == if io.opens then old(written)[key := item] else old(written)
      ensures r.Ok? <==> io.opens && item.metadata.Some? && |Encoded(codec, item)| <= io.room
      ensures r.Ok? ==> key in disk && disk[key] == DiskFile(Encoded(codec, item), now)
      ensures var due := old(CleansUp(ItemSize(codec, item), now));
              var left := if due then AfterCleanup(old(disk), now - maxAge, stuck, removed) else old(disk);
              && (due ==> EvictedByAge(old(disk), Young(old(disk), now - maxAge), stuck, removed, maxSizeBytes))
              && disk - {key} == left - {key} && (!io.opens ==> disk == left)
      ensures var due := old(CleansUp(ItemSize(codec, item), now));
              currentSize == (if due then SizeOf(old(disk), Young(old(disk), now - maxAge) - removed) else old(currentSize))
                             + (if r.Ok? then |Encoded(codec, item)| else 0)
    {
      hide Valid, MemoryCache.Valid, LevelsAgree, Encoded, Storable, EvictedByAge, AfterCleanup, SizeOf, Young, Keys, ItemSize;
      removed := MakeRoom(ItemSize(codec, item), now, stuck);
      r := WriteFile(key, item, now, io);
    }

    /** A cleanup pass, if the new file would take the counter over the limit. */
    method MakeRoom(size: nat, now: int, stuck: set<string>) returns (ghost removed: set<string>)
      requires Valid()
      modifies `disk, `currentSize, `lastCleanup
      ensures Valid() && Repr() == old(Repr())
      ensures old(CleansUp(size, now)) ==>
                && EvictedByAge(old(disk), Young(old(disk), now - maxAge), stuck, removed, maxSizeBytes)
                && disk == AfterCleanup(old(disk), now - maxAge, stuck, removed)
                && currentSize == SizeOf(old(disk), Young(old(disk), now - maxAge) - removed)
      ensures !old(CleansUp(size, now)) ==> removed == {} && disk == old(disk) && currentSize == old(currentSize)
    {
      hide Valid, MemoryCache.Valid, LevelsAgree, EvictedByAge, AfterCleanup, SizeOf, Young, Keys;
      removed := {};
      if maxSizeBytes > 0 && currentSize + size > maxSizeBytes {
        removed := Cleanup(now, stuck);
      }
    }

    /** An item whose key starts with `prefix`; names on disk are tried in any order. `listing` says
        whether the directory can be read, and `ios` what each of its files allows. */
    method GetAnyWithPrefix(prefix: string, now: int, ios: string -> Io, listing: bool) returns (r: Result<Option<CacheItem>>)
      requires Valid()
      modifies Repr()
      ensures Valid() && fresh(Repr() - old(Repr())) && latest == old(latest) && stale == old(stale) && written == old(written)
      ensures r.Err? <==> prefix == "" || (!listing && !old(InMemory(prefix)))
      ensures r.Ok? && r.value.Some? ==>
                exists k | k in latest :: prefix <= k && old(k in latest && HitIs(k, r.value.value))
      // A memory entry or a readable file with the prefix is found.
      ensures r.Ok? && (old(InMemory(prefix)) || exists k | k in old(disk) :: prefix <= k && old(OnDisk(k, now, ios(k)))) ==>
                r.value.Some?
    {
      hide Valid, MemoryCache.Valid, LevelsAgree, Decoded, Keys;
      if prefix == "" {
        return Err("prefix cannot be empty");
      }
      KeptIsLive();
      r := FindInMemory(prefix);
      if r.value.Some? {
        return;
      }
      if !listing {
        return Err("failed to read directory");
      }
      r := FindOnDisk(prefix, now, ios);
    }

    method FindOnDisk(prefix: string, now: int, ios: string -> Io) returns (r: Result<Option<CacheItem>>)
      requires Valid() && prefix != ""
      modifies Repr()
      ensures Valid() && fresh(Repr() - old(Repr())) && latest == old(latest) && stale == old(stale) && written == old(written)
      ensures r.Ok?
      ensures r.value.Some? ==> exists k | k in latest :: prefix <= k && old(k in latest && HitIs(k, r.value.value))
      ensures (exists k | k in old(disk) :: prefix <= k && old(OnDisk(k, now, ios(k)))) ==> r.value.Some?
    {
      hide Valid, MemoryCache.Valid, LevelsAgree, Decoded, Keys, Live;
      var names := disk.Keys;
      while names != {}
        invariant Valid() && fresh(Repr() - old(Repr())) && latest == old(latest) && stale == old(stale) && written == old(written)
        invariant kept == old(kept)
        invariant forall k | k in disk :: k in old(disk) && disk[k] == old(disk)[k]
        invariant forall k | old(Unexpired(k, now)) :: k in disk
        invariant forall k | k in old(disk) && k !in names && prefix <= k :: !old(OnDisk(k, now, ios(k)))
      {
        var name :| name in names;
        if prefix <= name {
          r := Get(name, now, ios(name));
          if r.Ok? && r.value.Some? {
            return;
          }
        }
        names := names - {name};
      }
      r := Ok(None);
    }

    ghost predicate InMemory(prefix: string)
      reads memCache.lruList
    {
      exists k | k in Live() :: prefix <= k
    }

    method FindInMemory(prefix: string) returns (r: Result<Option<CacheItem>>)
      requires Valid() && prefix != ""
      ensures r.Ok? && (r.value.Some? <==> InMemory(prefix))
      ensures r.value.Some? ==> exists k | k in latest :: prefix <= k && HitIs(k, r.value.value)
    {
      hide MemoryCache.Valid, LevelsAgree, Keys;
      r := memCache.GetAnyWithPrefix(prefix);
      if r.value.Some? {
        ghost var k :| k in Keys(memCache.Recency()) && prefix <= k && k in memCache.latest
                       && r.value.value == memCache.latest[k];
        MemoryHit(codec, disk, written, memCache.latest, Live(), latest, stale, kept, k);
      }
    }
  }

  /** What memory counts for an item: the bytes of its file without the two lengths, or the data alone
      if there are no metadata to write. */
  lemma CountedSize(codec: MetadataCodec, item: CacheItem)
    requires Storable(codec, item)
    ensures if item.metadata.Some? then ItemSize(codec, item) + 16 == |Encoded(codec, item)| else ItemSize(codec, item) == |item.data|
  {
    if item.metadata.Some? { EncodedBlocks(codec, item); }
  }

  lemma NothingStored(codec: MetadataCodec, memory: map<string, CacheItem>)
    ensures LevelsAgree(codec, map[], map[], memory, {}, map[], {}, {})
  {
  }

  lemma OnlyKey(s: seq<Entry>)
    requires |s| == 1
    ensures Keys(s) == {s[0].key}
  {
  }

  method EncodeFile(codec: MetadataCodec, item: CacheItem, room: nat) returns (content: seq<byte>, ok: bool)
    requires Storable(codec, item) && Keeps(codec, item)
    ensures CutOf(codec, content, item)
    ensures ok <==> item.metadata.Some? && |Encoded(codec, item)| <= room
    ensures ok ==> content == Encoded(codec, item)
  {
    var file := new ByteWriter(room);
    var n;
    n, ok := WriteTo(codec, item, file);
    content := file.output;
    if item.metadata.Some? {
      ghost var all := Encoded(codec, item);
      assert content == all[..if ok then |all| else room];
    }
  }

  lemma SetInMemory(codec: MetadataCodec, disk: Disk, written: map<string, CacheItem>, memory: map<string, CacheItem>,
        live: set<string>, latest: map<string, CacheItem>, stale: set<string>, kept: set<string>,
        key: string, item: CacheItem, live': set<string>)
    requires LevelsAgree(codec, disk, written, memory, live, latest, stale, kept)
    requires live' <= live + {key} && key in live'
    ensures LevelsAgree(codec, disk, written, memory[key := item], live', latest[key := item], stale + {key}, kept * live' + {key})
  {
    hide CutOf;
  }

  lemma FileRewritten(codec: MetadataCodec, disk: Disk, written: map<string, CacheItem>, memory: map<string, CacheItem>,
        live: set<string>, latest: map<string, CacheItem>, stale: set<string>, kept: set<string>,
        key: string, item: CacheItem, file: DiskFile)
    requires LevelsAgree(codec, disk, written, memory, live, latest, stale, kept) && CutOf(codec, file.content, item)
    requires key in latest && latest[key] == item && key in kept
    ensures LevelsAgree(codec, disk[key := file], written[key := item], memory, live, latest, stale - {key}, kept)
  {
    hide CutOf;
  }

  lemma FewerFiles(codec: MetadataCodec, disk: Disk, disk': Disk, written: map<string, CacheItem>, memory: map<string, CacheItem>,
        live: set<string>, latest: map<string, CacheItem>, stale: set<string>, kept: set<string>)
    requires LevelsAgree(codec, disk, written, memory, live, latest, stale, kept)
    requires forall k | k in disk' :: k in disk && disk'[k] == disk[k]
    ensures LevelsAgree(codec, disk', written, memory, live, latest, stale, kept)
  {
    hide CutOf;
  }

  lemma FileHolds(codec: MetadataCodec, disk: Disk, written: map<string, CacheItem>, memory: map<string, CacheItem>,
        live: set<string>, latest: map<string, CacheItem>, stale: set<string>, kept: set<string>,
        key: string)
    requires LevelsAgree(codec, disk, written, memory, live, latest, stale, kept)
    ensures key in disk ==>
              && key in written && key in latest && CutOf(codec, disk[key].content, written[key])
              && (key !in stale ==> written[key] == latest[key])
  {
    hide CutOf;
  }

  lemma MemoryHit(codec: MetadataCodec, disk: Disk, written: map<string, CacheItem>, memory: map<string, CacheItem>,
        live: set<string>, latest: map<string, CacheItem>, stale: set<string>, kept: set<string>,
        key: string)
    requires LevelsAgree(codec, disk, written, memory, live, latest, stale, kept) && key in live
    ensures key in latest && key in memory
    ensures if key in kept || key !in stale then memory[key] == latest[key] else key in written && memory[key] == written[key]
  {
    hide CutOf;
  }

  lemma MemoryRefilled(codec: MetadataCodec, disk: Disk, written: map<string, CacheItem>, memory: map<string, CacheItem>,
        live: set<string>, latest: map<string, CacheItem>, stale: set<string>, kept: set<string>,
        key: string, item: CacheItem, live': set<string>)
    requires LevelsAgree(codec, disk, written, memory, live, latest, stale, kept)
    requires key in latest && key !in live && key in written && item == written[key]
    requires live' <= live + {key} && key in live'
    ensures LevelsAgree(codec, disk, written, memory[key := item], live', latest, stale, kept * live')
  {
    hide CutOf;
  }

  /** An older item is hit: a Set that could not open its file, followed by one that pushes its key
      out of memory, leaves the file of the Set before. */
  method OlderItemIsHit(codec: MetadataCodec, a: CacheItem, b: CacheItem, big: CacheItem, now: int)
    returns (r: Result<Option<CacheItem>>)
    requires Storable(codec, a) && Keeps(codec, a) && a.metadata.Some?
    requires Storable(codec, b) && Keeps(codec, b) && a != b
    requires Storable(codec, big) && Keeps(codec, big) && ItemSize(codec, big) > 100 * 1024 * 1024
    ensures r == Ok(Some(a))
  {
    hide FileCache.Valid, FileCache.Live, FileCache.Repr, MemoryCache.Valid, Keys, Decoded, Encoded, ItemSize, EvictedByAge,
         Young, Keeps;
    var cache := new FileCache(codec, 0, 0);
    var room := |Encoded(codec, a)|;
    var stored, _ := cache.Set("k", Some(a), now, Io(true, room), {});
    var failed, _ := cache.Set("k", Some(b), now, Io(false, 0), {});
    assert cache.disk["k"] == DiskFile(Encoded(codec, a), now);
    var pushed, _ := cache.Set("big", Some(big), now, Io(false, 0), {});
    assert cache.disk["k"] == DiskFile(Encoded(codec, a), now);
    RoundTrip(codec, a, []);
    assert Encoded(codec, a) + [] == Encoded(codec, a);
    assert "k" !in cache.Live() && "k" !in cache.kept && cache.Unexpired("k", now);
    r := cache.Get("k", now, Io(true, 0));
    assert r.Ok? && r.value.Some?;
    assert cache.written["k"] == a && cache.latest["k"] == b;
  }

  /** The counter, when it was exact and a Set adds the size of the file that it wrote, stays exact if and
      only if the key had no file, or an empty one: the size of the file that went is not taken off. */
  lemma CounterStaysExactIff(disk: Disk, key: string, file: DiskFile, counter: int)
    requires counter == SizeOf(disk, disk.Keys)
    ensures var disk' := disk[key := file];
            counter + |file.content| == SizeOf(disk', disk'.Keys) <==> key !in disk || disk[key].content == []
  {
    var disk' := disk[key := file];
    SizeWithout(disk', disk'.Keys, key);
    assert disk'.Keys - {key} == disk.Keys - {key};
    SizeSameFiles(disk, disk', disk.Keys - {key});
    if key in disk {
      SizeWithout(disk, disk.Keys, key);
    } else {
      assert disk.Keys - {key} == disk.Keys;
    }
  }

  /** When no removal fails, a pass leaves no expired file, ends below the limit, and the size
      it stores is the size of what is left. */
  lemma CleanupAchieves(disk: Disk, cutoff: int, removed: set<string>, maxSize: int)
    requires maxSize > 0 && EvictedByAge(disk, Young(disk, cutoff), {}, removed, maxSize)
    ensures var disk' := AfterCleanup(disk, cutoff, {}, removed);
            && disk'.Keys == Young(disk, cutoff) - removed
            && SizeOf(disk', disk'.Keys) == SizeOf(disk, Young(disk, cutoff) - removed) <= maxSize
  {
    var young := Young(disk, cutoff);
    var disk' := disk - (disk.Keys - young - {}) - removed;
    assert disk'.Keys == young - removed;
    SizeSameFiles(disk, disk', young - removed);
    if removed == young {
      assert young - removed == {};
    }
  }
}
