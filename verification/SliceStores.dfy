/** The slice cache as the proxy holds it: the two-level cache where a directory is configured, and
    the memory cache alone where none is. */
module SliceStores {
  import opened Text
  import opened CacheItems
  import opened MemoryCaches
  import opened FileCaches
  import PrefixTries

  /** What the outside does during one use of the cache: the clock, what the key's file allows, and the
      files that cannot be removed. */
  datatype Env = Env(now: int, io: Io, stuck: set<string>)

  class SliceStore {
    const memory: MemoryCache
    const files: FileCache?
    const envs: nat -> Env
    var uses: nat
    ghost var Repr: set<object>
    /** The item of the latest Set of every key ever set. */
    ghost var latest: map<string, CacheItem>
    /** What a key may fall back to when its latest Set could not open the file. */
    ghost var written: map<string, CacheItem>
    /** How many uses have returned an error. */
    ghost var failures: nat

    ghost predicate Valid()
      reads this, Repr
      ensures Valid() ==> this in Repr
    {
      && this in Repr && memory in Repr && memory.lruList in Repr && memory.prefixTrie in Repr
      && if files == null then
           && memory.Repr() <= Repr && this !in memory.Repr() && memory.Valid()
           && latest == memory.latest && written == map[]
         else
           && files in Repr && memory == files.memCache
           && files.Repr() <= Repr && this !in files.Repr() && files.Valid()
           && latest == files.latest && written == files.written
    }

    /** Items that the cache can give back. */
    ghost predicate Takes(item: CacheItem) {
      files == null || (Storable(files.codec, item) && Keeps(files.codec, item))
    }

    constructor InMemory(memory: MemoryCache, envs: nat -> Env)
      requires memory.Valid()
      ensures Valid() && files == null && this.memory == memory && Repr == {this} + memory.Repr()
      ensures latest == memory.latest && written == map[]
    {
      this.memory, files, this.envs, uses, failures := memory, null, envs, 0, 0;
      latest, written := memory.latest, map[];
      Repr := {this} + memory.Repr();
      new;
      hide MemoryCache.Valid;
    }

    constructor OnFiles(files: FileCache, envs: nat -> Env)
      requires files.Valid()
      ensures Valid() && this.files == files && Repr == {this} + files.Repr()
      ensures latest == files.latest && written == files.written
    {
      hide FileCache.Valid, MemoryCache.Valid;
      this.memory, this.files, this.envs, uses, failures := files.memCache, files, envs, 0, 0;
      latest, written := files.latest, files.written;
      Repr := {this} + files.Repr();
      new;
      assert this !in files.memCache.prefixTrie.Repr();
      assert this !in files.Repr();
      hide FileCache.Repr, MemoryCache.Repr;
      files.Footprint();
    }

    method Get(key: string) returns (r: Result<Option<CacheItem>>)
      requires Valid() && key != ""
      modifies Repr
      ensures Valid() && fresh(Repr - old(Repr)) && latest == old(latest) && written == old(written)
      ensures r.Ok? && r.value.Some? ==>
                (key in latest && r.value.value == latest[key]) || (key in written && r.value.value == written[key])
      ensures failures == old(failures) + (if r.Err? then 1 else 0) && uses == old(uses) + 1
      ensures files == null ==> r.Ok?
    {
      if files == null {
        r := GetFromMemory(key);
      } else {
        r := GetFromFiles(key);
      }
    }

    method GetFromMemory(key: string) returns (r: Result<Option<CacheItem>>)
      requires Valid() && key != "" && files == null
      modifies Repr
      ensures Valid() && fresh(Repr - old(Repr)) && latest == old(latest) && written == old(written)
      ensures r.Ok? && (r.value.Some? ==> key in latest && r.value.value == latest[key])
      ensures failures == old(failures) && uses == old(uses) + 1
    {
      hide MemoryCache.Valid, PrefixTries.PrefixTrie.Valid, Keys, ToFront;
      r := memory.Get(key);
      uses := uses + 1;
      Repr := Repr + memory.Repr();
    }

    method GetFromFiles(key: string) returns (r: Result<Option<CacheItem>>)
      requires Valid() && key != "" && files != null
      modifies Repr
      ensures Valid() && fresh(Repr - old(Repr)) && latest == old(latest) && written == old(written)
      ensures r.Ok? && r.value.Some? ==>
                (key in latest && r.value.value == latest[key]) || (key in written && r.value.value == written[key])
      ensures failures == old(failures) + (if r.Err? then 1 else 0) && uses == old(uses) + 1
    {
      hide FileCache.Valid, FileCache.Live, FileCache.Unreadable, FileCache.OnDisk;
      var env := envs(uses);
      r := files.Get(key, env.now, env.io);
      uses, failures := uses + 1, failures + if r.Err? then 1 else 0;
      Repr := Repr + files.Repr();
    }

    method Set(key: string, item: CacheItem) returns (r: Result<()>)
      requires Valid() && key != "" && Takes(item)
      modifies Repr
      ensures Valid() && fresh(Repr - old(Repr)) && latest == old(latest)[key := item]
      ensures written == old(written) || written == old(written)[key := item]
      ensures failures == old(failures) + (if r.Err? then 1 else 0) && uses == old(uses) + 1
      ensures files == null ==> r.Ok?
    {
      if files == null {
        r := SetInMemory(key, item);
      } else {
        r := SetOnFiles(key, item);
      }
    }

    method SetInMemory(key: string, item: CacheItem) returns (r: Result<()>)
      requires Valid() && key != "" && files == null
      modifies Repr
      ensures Valid() && fresh(Repr - old(Repr)) && latest == old(latest)[key := item] && written == old(written)
      ensures failures == old(failures) && r.Ok? && uses == old(uses) + 1
    {
      hide MemoryCache.Valid, MemoryCache.Repr, Keys, LongestAdmitted, Drop, ItemSize;
      r := memory.Set(key, Some(item));
      memory.Footprint();
      uses := uses + 1;
      latest := memory.latest;
      Repr := Repr + memory.Repr();
    }

    method SetOnFiles(key: string, item: CacheItem) returns (r: Result<()>)
      requires Valid() && key != "" && files != null && Takes(item)
      modifies Repr
      ensures Valid() && fresh(Repr - old(Repr)) && latest == old(latest)[key := item]
      ensures written == old(written) || written == old(written)[key := item]
      ensures failures == old(failures) + (if r.Err? then 1 else 0) && uses == old(uses) + 1
    {
      hide MemoryCache.Valid, MemoryCache.Repr, FileCache.Valid, FileCache.Repr, FileCache.Live, Keys, ItemSize, EvictedByAge, Young,
           Encoded, Storable, Keeps;
      var env := envs(uses);
      ghost var removed;
      r, removed := files.Set(key, Some(item), env.now, env.io, env.stuck);
      files.Footprint();
      uses := uses + 1;
      latest, written := files.latest, files.written;
      failures := failures + if r.Err? then 1 else 0;
      Repr := Repr + files.Repr();
    }
  }
}
