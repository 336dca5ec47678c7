/** The movies of one room: a table of rows linked by parent ids, with cascading deletes, a cache
    that is evicted level by level, and the guards that keep the current movie in the table. */
module MovieForest {
  import opened Text

  /** A top-level movie has the parent "". A folder of a vendor is dynamic. */
  datatype Movie = Movie(parent: string, folder: bool, vendor: string) {
    predicate Dynamic() { folder && vendor != "" }
  }

  type Movies = map<string, Movie>

  // ---- Ancestors ----

  /** The n-th ancestor of id, or "" beyond the top. */
  function Up(t: Movies, id: string, n: nat): string
    decreases n
  {
    if n == 0 then id else if id in t then Up(t, t[id].parent, n - 1) else ""
  }

  /** `id` lies somewhere below `a`. */
  ghost predicate Beneath(t: Movies, id: string, a: string) {
    a != "" && exists n: nat :: n >= 1 && Up(t, id, n) == a
  }

  ghost predicate Layered(t: Movies, depth: map<string, nat>) {
    t.Keys <= depth.Keys && forall id | id in t && t[id].parent in t :: depth[t[id].parent] < depth[id]
  }

  /** No movie lies below itself. */
  ghost predicate Forest(t: Movies) {
    exists depth :: Layered(t, depth)
  }

  ghost function Depths(t: Movies): (depth: map<string, nat>)
    requires Forest(t)
    ensures Layered(t, depth)
  {
    var depth :| Layered(t, depth);
    depth
  }

  /** What a walk up the forest uses up. */
  ghost function Height(t: Movies, id: string): nat
    requires Forest(t)
  {
    if id in t then Depths(t)[id] + 1 else 0
  }

  lemma {:induction false} UpPlus(t: Movies, id: string, n: nat)
    requires "" !in t
    ensures Up(t, id, n + 1) == if Up(t, id, n) in t then t[Up(t, id, n)].parent else ""
    decreases n
  {
    if n > 0 && id in t { UpPlus(t, t[id].parent, n - 1); }
  }

  lemma {:induction false} UpDescends(t: Movies, depth: map<string, nat>, id: string, n: nat)
    requires "" !in t && Layered(t, depth) && id in t && n >= 1 && Up(t, id, n) in t
    ensures depth[Up(t, id, n)] < depth[id]
    decreases n
  {
    var p := t[id].parent;
    if n > 1 {
      if p in t { UpDescends(t, depth, p, n - 1); }
    }
  }

  lemma NotBeneathSelf(t: Movies, id: string)
    requires "" !in t && Forest(t) && id in t
    ensures !Beneath(t, id, id)
  {
    if Beneath(t, id, id) {
      var n: nat :| n >= 1 && Up(t, id, n) == id;
      UpDescends(t, Depths(t), id, n);
    }
  }

  lemma BeneathParent(t: Movies, id: string, a: string)
    requires id in t
    ensures Beneath(t, id, a) <==> a != "" && (t[id].parent == a || Beneath(t, t[id].parent, a))
  {
    var p := t[id].parent;
    if Beneath(t, id, a) {
      var n: nat :| n >= 1 && Up(t, id, n) == a;
      assert Up(t, p, n - 1) == a;
    }
    if a != "" && p == a { assert Up(t, id, 1) == Up(t, p, 0); }
    if Beneath(t, p, a) {
      var n: nat :| n >= 1 && Up(t, p, n) == a;
      assert Up(t, id, n + 1) == a;
    }
  }

  lemma NothingBeneathTop(t: Movies, id: string, a: string)
    requires id !in t
    ensures !Beneath(t, id, a)
  {
  }

  // ---- Changing one movie's parent ----

  lemma {:induction false} StillReached(t: Movies, id: string, movie: Movie, from: string, n: nat) returns (m: nat)
    requires id != "" && Up(t, from, n) == id
    ensures Up(t[id := movie], from, m) == id
    decreases n
  {
    if from == id {
      m := 0;
    } else {
      assert from in t;
      var k := StillReached(t, id, movie, t[from].parent, n - 1);
      m := k + 1;
    }
  }

  /** The depths once `id` hangs below `parent`: everything in its subtree sinks. */
  ghost function Sunk(t: Movies, depth: map<string, nat>, id: string, k: nat): map<string, nat>
    requires t.Keys <= depth.Keys
  {
    map x | x in t.Keys + {id} ::
      if x == id then (if id in t then depth[id] else 0) + k
      else if Beneath(t, x, id) then depth[x] + k + 1 else depth[x]
  }

  lemma SunkLayered(t: Movies, id: string, movie: Movie)
    requires "" !in t && id != "" && Forest(t)
    requires movie.parent != id && !Beneath(t, movie.parent, id)
    ensures Forest(t[id := movie])
  {
    var depth := Depths(t);
    var t' := t[id := movie];
    var k := if movie.parent in t then depth[movie.parent] + 1 else 0;
    var depth' := Sunk(t, depth, id, k);
    forall x | x in t' && t'[x].parent in t' ensures depth'[t'[x].parent] < depth'[x] {
      if x != id { BeneathParent(t, x, id); }
    }
    assert Layered(t', depth');
  }

  /** Giving a movie a new parent keeps the forest exactly if the parent is neither the movie
      itself nor anything below it. */
  lemma ReparentKeepsForestIff(t: Movies, id: string, movie: Movie)
    requires "" !in t && id != "" && Forest(t)
    ensures Forest(t[id := movie]) <==> movie.parent != id && !Beneath(t, movie.parent, id)
  {
    var t' := t[id := movie];
    var p := movie.parent;
    if p != id && !Beneath(t, p, id) {
      SunkLayered(t, id, movie);
    } else if Forest(t') {
      var n: nat :| Up(t, p, n) == id;
      var m := StillReached(t, id, movie, p, n);
      assert Up(t', id, m + 1) == id;
      NotBeneathSelf(t', id);
      assert false;
    }
  }

  lemma PartKeepsForest(t: Movies, part: Movies)
    requires Forest(t) && forall id | id in part :: id in t && part[id] == t[id]
    ensures Forest(part)
  {
    assert Layered(part, Depths(t));
  }

  // ---- Cascading deletes ----

  /** The rows that go with `gone`: the foreign key cascades to children. */
  function Cascade(t: Movies, gone: set<string>): (all: set<string>)
    requires gone <= t.Keys
    ensures gone <= all <= t.Keys
    ensures forall id | id in t && t[id].parent in all :: id in all
    decreases t.Keys - gone
  {
    var next := set id | id in t && t[id].parent in gone;
    if next <= gone then gone
    else
      assert gone < gone + next;
      Cascade(t, gone + next)
  }

  lemma {:induction false} CascadedFrom(t: Movies, gone: set<string>, id: string) returns (n: nat)
    requires "" !in t && gone <= t.Keys && id in Cascade(t, gone)
    ensures Up(t, id, n) in gone
    decreases t.Keys - gone
  {
    var next := set x | x in t && t[x].parent in gone;
    if next <= gone {
      n := 0;
    } else {
      assert gone < gone + next;
      n := CascadedFrom(t, gone + next, id);
      if Up(t, id, n) !in gone {
        UpPlus(t, id, n);
        n := n + 1;
      }
    }
  }

  lemma {:induction false} CascadeReaches(t: Movies, gone: set<string>, id: string, n: nat)
    requires "" !in t && gone <= t.Keys && id in t && Up(t, id, n) in gone
    ensures id in Cascade(t, gone)
    decreases n
  {
    if n > 0 {
      var p := t[id].parent;
      CascadeReaches(t, gone, p, n - 1);
    }
  }

  /** A cascade deletes the given rows and exactly what lies below them. */
  lemma CascadeIff(t: Movies, gone: set<string>, id: string)
    requires "" !in t && gone <= t.Keys && id in t
    ensures id in Cascade(t, gone) <==> id in gone || exists a :: a in gone && Beneath(t, id, a)
  {
    hide Cascade;
    if id in Cascade(t, gone) {
      var n := CascadedFrom(t, gone, id);
      if n > 0 { assert Beneath(t, id, Up(t, id, n)); }
    }
    if id in gone { CascadeReaches(t, gone, id, 0); }
    if a :| a in gone && Beneath(t, id, a) {
      var n: nat :| n >= 1 && Up(t, id, n) == a;
      CascadeReaches(t, gone, id, n);
    }
  }

  // ---- Evicting cached descendants ----

  /** A chain of n cached folders leads from id up to a child of the given ids. */
  ghost predicate CachedBelow(c: Movies, ids: set<string>, id: string, n: nat)
    decreases n
  {
    && id in c
    && if n == 0 then c[id].parent in ids
       else c[id].parent in c && c[c[id].parent].folder && CachedBelow(c, ids, c[id].parent, n - 1)
  }

  ghost predicate Swept(c: Movies, ids: set<string>, id: string) {
    exists n: nat :: CachedBelow(c, ids, id, n)
  }

  ghost predicate SweepClosed(c: Movies, ids: set<string>, all: set<string>) {
    forall id | id in c ::
      (c[id].parent in ids || (c[id].parent in all && c[id].parent in c && c[c[id].parent].folder)) ==> id in all
  }

  /** The swept movies are the least set that holds the children of the given ids and of its own
      cached folders. */
  lemma SweptIsLeast(c: Movies, ids: set<string>, all: set<string>)
    ensures SweepClosed(c, ids, set id | id in c && Swept(c, ids, id))
    ensures SweepClosed(c, ids, all) ==> forall id | Swept(c, ids, id) :: id in all
  {
    forall id | id in c && Swept(c, ids, c[id].parent) && c[id].parent in c && c[c[id].parent].folder
      ensures Swept(c, ids, id)
    {
      var n: nat :| CachedBelow(c, ids, c[id].parent, n);
      assert CachedBelow(c, ids, id, n + 1);
    }
    forall id | id in c && c[id].parent in ids ensures Swept(c, ids, id) { assert CachedBelow(c, ids, id, 0); }
    if SweepClosed(c, ids, all) {
      forall id | Swept(c, ids, id) ensures id in all {
        var n: nat :| CachedBelow(c, ids, id, n);
        SweptInside(c, ids, all, id, n);
      }
    }
  }

  lemma {:induction false} SweptInside(c: Movies, ids: set<string>, all: set<string>, id: string, n: nat)
    requires SweepClosed(c, ids, all) && CachedBelow(c, ids, id, n)
    ensures id in all
    decreases n
  {
    if n > 0 { SweptInside(c, ids, all, c[id].parent, n - 1); }
  }

  /** One level of eviction: the cached children of the ids, and the folders among them. */
  function Level(c: Movies, ids: set<string>): set<string> {
    set id | id in c && c[id].parent in ids
  }

  function LevelFolders(c: Movies, ids: set<string>): set<string> {
    set id | id in c && c[id].parent in ids && c[id].folder
  }

  lemma {:induction false} SweptLater(c: Movies, ids: set<string>, id: string, n: nat)
    requires CachedBelow(c, ids, id, n)
    ensures id in Level(c, ids) || Swept(c - Level(c, ids), LevelFolders(c, ids), id)
    decreases n
  {
    var rest, next := c - Level(c, ids), LevelFolders(c, ids);
    if n > 0 && id !in Level(c, ids) {
      var p := c[id].parent;
      SweptLater(c, ids, p, n - 1);
      if p in Level(c, ids) {
        assert CachedBelow(rest, next, id, 0);
      } else {
        var k: nat :| CachedBelow(rest, next, p, k);
        assert CachedBelow(rest, next, id, k + 1);
      }
    }
  }

  lemma {:induction false} SweptEarlier(c: Movies, ids: set<string>, id: string, n: nat)
    requires CachedBelow(c - Level(c, ids), LevelFolders(c, ids), id, n)
    ensures CachedBelow(c, ids, id, n + 1)
    decreases n
  {
    if n > 0 { SweptEarlier(c, ids, c[id].parent, n - 1); }
    else { assert CachedBelow(c, ids, c[id].parent, 0); }
  }

  lemma SweptByLevels(c: Movies, ids: set<string>, id: string)
    ensures Swept(c, ids, id) <==> id in Level(c, ids) || Swept(c - Level(c, ids), LevelFolders(c, ids), id)
  {
    if Swept(c, ids, id) {
      var n: nat :| CachedBelow(c, ids, id, n);
      SweptLater(c, ids, id, n);
    }
    if id in Level(c, ids) { assert CachedBelow(c, ids, id, 0); }
    if Swept(c - Level(c, ids), LevelFolders(c, ids), id) {
      var n: nat :| CachedBelow(c - Level(c, ids), LevelFolders(c, ids), id, n);
      SweptEarlier(c, ids, id, n);
    }
  }

  /** What is left of a cache once the movies below the ids are swept. */
  ghost function SweepOf(c: Movies, ids: set<string>): Movies {
    map id | id in c && !Swept(c, ids, id) :: c[id]
  }

  lemma SweepByLevels(c: Movies, ids: set<string>)
    ensures SweepOf(c, ids) == SweepOf(c - Level(c, ids), LevelFolders(c, ids))
  {
    hide Swept;
    forall id ensures Swept(c, ids, id) <==> id in Level(c, ids) || Swept(c - Level(c, ids), LevelFolders(c, ids), id) {
      SweptByLevels(c, ids, id);
    }
  }

  lemma NoFoldersNoMore(c: Movies)
    ensures SweepOf(c, {}) == c
  {
    forall id ensures !Swept(c, {}, id) {
      if n: nat :| CachedBelow(c, {}, id, n) { SweptInside(c, {}, {}, id, n); }
    }
  }

  // ---- The room's movies ----

  /** The table as the foreign key and the id generator keep it. */
  predicate Sound(t: Movies) {
    "" !in t && forall id | id in t && t[id].parent != "" :: t[id].parent in t
  }

  predicate ParentsAreFolders(t: Movies) {
    forall id | id in t && t[id].parent in t :: t[t[id].parent].folder
  }

  /** A cached movie may outlive its row, but never differs from it. */
  predicate Coherent(cache: Movies, t: Movies) {
    "" !in cache && forall id | id in cache && id in t :: cache[id] == t[id]
  }

  function IdSet(ids: seq<string>): set<string> {
    set id | id in ids
  }

  class MovieList {
    var table: Movies
    var cache: Movies

    constructor ()
      ensures Valid() && Forest(View()) && ParentsAreFolders(table) && table == map[]
    {
      table, cache := map[], map[];
      new;
      assert Layered(View(), map[]);
    }

    /** What lookups answer: cached movies, and all rows. */
    ghost function View(): Movies
      reads this
    {
      cache + table
    }

    ghost predicate Valid()
      reads this
    {
      Sound(table) && Coherent(cache, table)
    }

    /** What the save hook asks of a parent. */
    predicate ParentAllowed(parent: string)
      reads this
    {
      parent == "" || (parent in table && table[parent].folder && !table[parent].Dynamic())
    }

    method AddMovie(id: string, movie: Movie) returns (r: Result<bool>)
      requires Valid() && id != ""
      modifies this
      ensures Valid()
      ensures r.Ok? <==> id !in old(table) && old(ParentAllowed(movie.parent))
      // The parent is the top level, or a folder in the table that belongs to no vendor.
      ensures old(ParentAllowed(movie.parent)) <==>
                movie.parent == "" || (movie.parent in old(table) && old(table)[movie.parent].folder && old(table)[movie.parent].vendor == "")
      ensures r.Ok? ==> table == old(table)[id := movie] && cache == old(cache)[id := movie]
      ensures r.Err? ==> table == old(table) && cache == old(cache)
      ensures old(Forest(View())) ==> Forest(View())
      ensures old(ParentsAreFolders(table)) ==> ParentsAreFolders(table)
    {
      if !ParentAllowed(movie.parent) { return Err("bad parent"); }
      if id in table { return Err("duplicate key"); }
      AddKeepsTable(table, cache, id, movie);
      hide Forest, Beneath, Sound, Coherent, ParentsAreFolders;
      if Forest(View()) { AddKeepsForest(table, cache, id, movie); }
      table := table[id := movie];
      cache := cache[id := movie];
      return Ok(true);
    }

    method GetMovieByID(id: string) returns (r: Result<Movie>)
      requires Valid()
      modifies this`cache
      ensures Valid() && View() == old(View())
      ensures r == if id in View() then Ok(View()[id]) else Err("not found")
      ensures cache == if r.Ok? then old(cache)[id := r.value] else old(cache)
    {
      if id == "" { return Err("not found"); }
      if id in cache { return Ok(cache[id]); }
      if id !in table { return Err("not found"); }
      cache := cache[id := table[id]];
      return Ok(table[id]);
    }

    /** No check for cycles: see `ReparentKeepsForestIff`. */
    method Update(id: string, movie: Movie) returns (r: Result<bool>)
      requires Valid()
      modifies this
      ensures Valid()
      ensures r.Ok? <==> id in old(table) && old(ParentAllowed(movie.parent))
      ensures r.Ok? ==> table == old(table)[id := movie] && cache == old(cache) - {id}
      ensures r.Err? ==> table == old(table) && cache == old(cache)
      ensures r.Ok? && old(Forest(View())) ==>
                (Forest(View()) <==> movie.parent != id && !Beneath(old(table), movie.parent, id))
      ensures r.Ok? && old(ParentsAreFolders(table)) ==>
                (ParentsAreFolders(table) <==>
                   movie.folder || (movie.parent != id && forall x | x in old(table) && x != id :: old(table)[x].parent != id))
    {
      hide Forest, Beneath, ParentsAreFolders;
      if id !in table { return Err("not found"); }
      if !ParentAllowed(movie.parent) { return Err("bad parent"); }
      if Forest(View()) { UpdateKeepsForestIff(table, cache, id, movie); }
      if ParentsAreFolders(table) { FolderWithChildren(table, id, movie); }
      table := table[id := movie];
      cache := cache - {id};
      return Ok(true);
    }

    method ClearCache()
      requires Valid()
      modifies this`cache
      ensures Valid() && cache == map[]
    {
      cache := map[];
    }

    /** Deletes the rows of the given ids with everything below them. */
    method DeleteRows(ids: set<string>) returns (r: Result<bool>)
      requires Valid()
      modifies this`table
      ensures Valid()
      ensures var hit := ids * old(table).Keys;
              && r.Ok? == (hit != {})
              && table == old(table) - Cascade(old(table), hit)
      ensures old(Forest(View())) ==> Forest(View())
      ensures old(ParentsAreFolders(table)) ==> ParentsAreFolders(table)
    {
      var hit := ids * table.Keys;
      ghost var before := View();
      table := table - Cascade(table, hit);
      if Forest(before) { PartKeepsForest(before, View()); }
      return if hit == {} then Err("not found") else Ok(true);
    }

    /** Whether parentID lies above id, not counting id's own parent on the first check. */
    method IsAbove(id: string, parentID: string, firstCheck: bool) returns (r: Result<bool>)
      requires Valid() && Forest(View())
      modifies this`cache
      ensures Valid() && View() == old(View())
      ensures id in table ==>
                r == Ok(Beneath(table, id, parentID) && !(firstCheck && table[id].parent == parentID))
      decreases Height(View(), id)
    {
      var found := GetMovieByID(id);
      if found.Err? { return Err(found.message); }
      var movie := found.value;
      if movie.parent == "" {
        if id in table { TopOrParent(table, id, parentID); }
        return Ok(false);
      }
      if movie.parent == parentID {
        if id in table { TopOrParent(table, id, parentID); }
        return Ok(!firstCheck);
      }
      if id in table { TopOrParent(table, id, parentID); }
      r := IsAbove(movie.parent, parentID, false);
    }

    /** For a folder, whether it is a proper ancestor of id; for any other movie, whether its own
        folder is an ancestor of id but not id's parent. */
    method IsParentFolder(id: string, parentID: string) returns (r: Result<bool>)
      requires Valid() && Forest(View())
      modifies this`cache
      ensures Valid() && View() == old(View())
      ensures parentID == "" ==> r == Ok(id != "")
      ensures parentID != "" && parentID !in View() ==> r.Err?
      ensures id in table && parentID in View() ==>
                var above := if View()[parentID].folder then parentID else View()[parentID].parent;
                r == Ok(Beneath(table, id, above) && (View()[parentID].folder || table[id].parent != above))
    {
      if parentID == "" { return Ok(id != ""); }
      var found := GetMovieByID(parentID);
      if found.Err? { return Err(found.message); }
      var movie := found.value;
      if movie.folder {
        r := IsAbove(id, parentID, false);
      } else {
        r := IsAbove(id, movie.parent, true);
      }
    }

    /** Evicts the cached children of the ids and returns the folders among them. */
    method EvictLevel(ids: set<string>) returns (next: set<string>)
      requires Valid()
      modifies this`cache
      ensures Valid()
      ensures cache == old(cache) - Level(old(cache), ids) && next == LevelFolders(old(cache), ids)
    {
      ghost var c := cache;
      next := {};
      var todo := cache.Keys;
      while todo != {}
        invariant todo <= c.Keys
        invariant next == LevelFolders(c, ids) - todo
        invariant cache == c - (Level(c, ids) - todo)
      {
        var id :| id in todo;
        todo := todo - {id};
        if cache[id].parent in ids {
          if cache[id].folder { next := next + {id}; }
          cache := cache - {id};
        }
      }
    }

    /** Goes on with the folders of each level. It ends on any cache, even one whose parents form
        a cycle, because each level removes a movie. */
    method EvictChildren(ids: set<string>)
      requires Valid()
      modifies this`cache
      ensures Valid()
      ensures cache == SweepOf(old(cache), ids)
      decreases |cache|
    {
      ghost var c := cache;
      var next := EvictLevel(ids);
      SweepByLevels(c, ids);
      if next != {} {
        FewerLeft(c, ids);
        EvictChildren(next);
      } else {
        NoFoldersNoMore(cache);
      }
    }

    method DeleteMovieAndChildCache(ids: set<string>)
      requires Valid()
      modifies this`cache
      ensures Valid()
      ensures cache == if "" in ids then map[] else SweepOf(old(cache), ids)
    {
      if "" in ids {
        ClearCache();
      } else {
        EvictChildren(ids);
      }
    }

    method DeleteMoviesByID(ids: seq<string>) returns (r: Result<bool>)
      requires Valid()
      modifies this
      ensures Valid() && (old(Forest(View())) ==> Forest(View()))
      ensures old(ParentsAreFolders(table)) ==> ParentsAreFolders(table)
      ensures var hit := IdSet(ids) * old(table).Keys;
              && r.Ok? == (hit != {})
              && table == old(table) - Cascade(old(table), hit)
              && cache == if hit == {} then old(cache) else if "" in ids then map[] else SweepOf(old(cache), IdSet(ids))
    {
      r := DeleteRows(IdSet(ids));
      if r.Ok? {
        ghost var before := View();
        DeleteMovieAndChildCache(IdSet(ids));
        if Forest(before) { PartKeepsForest(before, View()); }
      }
    }

    /** Deletes what lies below a folder; below "" lies everything. */
    method DeleteMoviesByParentID(parentID: string) returns (r: Result<bool>)
      requires Valid()
      modifies this
      ensures Valid() && (old(Forest(View())) ==> Forest(View()))
      ensures old(ParentsAreFolders(table)) ==> ParentsAreFolders(table)
      ensures var hit := Level(old(table), {parentID});
              && r.Ok? == (hit != {})
              && table == old(table) - Cascade(old(table), hit)
              && cache == if hit == {} then old(cache) else if parentID == "" then map[] else SweepOf(old(cache), {parentID})
    {
      assert Level(table, {parentID}) * table.Keys == Level(table, {parentID});
      r := DeleteRows(Level(table, {parentID}));
      if r.Ok? {
        ghost var before := View();
        DeleteMovieAndChildCache({parentID});
        if Forest(before) { PartKeepsForest(before, View()); }
      }
    }
  }

  lemma FewerLeft(c: Movies, ids: set<string>)
    requires LevelFolders(c, ids) != {}
    ensures |c - Level(c, ids)| < |c|
  {
    var f :| f in LevelFolders(c, ids);
    assert f in c.Keys && f !in (c - Level(c, ids)).Keys;
    SmallerSet((c - Level(c, ids)).Keys, c.Keys);
  }

  lemma FolderWithChildren(t: Movies, id: string, movie: Movie)
    requires ParentsAreFolders(t) && id in t && (movie.parent in t ==> t[movie.parent].folder)
    ensures ParentsAreFolders(t[id := movie]) <==>
            movie.folder || (movie.parent != id && forall x | x in t && x != id :: t[x].parent != id)
  {
    var t' := t[id := movie];
    if !movie.folder && movie.parent == id { assert !t'[t'[id].parent].folder; }
    if x :| !movie.folder && x in t && x != id && t[x].parent == id { assert !t'[t'[x].parent].folder; }
  }

  lemma SmallerSet(small: set<string>, large: set<string>)
    requires small < large
    ensures |small| < |large|
  {
    assert large == small + (large - small);
  }

  /** Nothing above a row lies outside the table. */
  lemma RowsStayInTable(t: Movies, cache: Movies, id: string, a: string)
    requires Sound(t) && Coherent(cache, t) && (id == "" || id in t) && a !in t
    ensures !Beneath(cache + t, id, a)
  {
    if Beneath(cache + t, id, a) {
      var n: nat :| n >= 1 && Up(cache + t, id, n) == a;
      UpInTable(t, cache, id, n);
    }
  }

  lemma {:induction false} UpInTable(t: Movies, cache: Movies, id: string, n: nat)
    requires Sound(t) && Coherent(cache, t) && (id == "" || id in t)
    ensures Up(cache + t, id, n) == Up(t, id, n) && (Up(t, id, n) == "" || Up(t, id, n) in t)
    decreases n
  {
    if n > 0 && id in t { UpInTable(t, cache, t[id].parent, n - 1); }
  }

  lemma SameAncestors(t: Movies, cache: Movies, id: string, a: string)
    requires Sound(t) && Coherent(cache, t) && (id == "" || id in t)
    ensures Beneath(cache + t, id, a) <==> Beneath(t, id, a)
  {
    if n: nat :| n >= 1 && Up(t, id, n) == a { UpInTable(t, cache, id, n); }
    if n: nat :| n >= 1 && Up(cache + t, id, n) == a { UpInTable(t, cache, id, n); }
  }

  lemma AddKeepsTable(t: Movies, cache: Movies, id: string, movie: Movie)
    requires Sound(t) && Coherent(cache, t) && id != "" && id !in t
    requires movie.parent == "" || (movie.parent in t && t[movie.parent].folder)
    ensures Sound(t[id := movie]) && Coherent(cache[id := movie], t[id := movie])
    ensures ParentsAreFolders(t) ==> ParentsAreFolders(t[id := movie])
  {
  }

  lemma AddKeepsForest(t: Movies, cache: Movies, id: string, movie: Movie)
    requires Sound(t) && Coherent(cache, t) && Forest(cache + t)
    requires id != "" && id !in t && (movie.parent == "" || movie.parent in t)
    ensures Forest(cache[id := movie] + t[id := movie])
  {
    hide Forest, Beneath;
    RowsStayInTable(t, cache, movie.parent, id);
    ReparentKeepsForestIff(cache + t, id, movie);
    assert cache[id := movie] + t[id := movie] == (cache + t)[id := movie];
  }

  lemma UpdateKeepsForestIff(t: Movies, cache: Movies, id: string, movie: Movie)
    requires Sound(t) && Coherent(cache, t) && Forest(cache + t)
    requires id in t && (movie.parent == "" || movie.parent in t)
    ensures Forest((cache - {id}) + t[id := movie]) <==> movie.parent != id && !Beneath(t, movie.parent, id)
  {
    hide Forest, Beneath;
    SameAncestors(t, cache, movie.parent, id);
    ReparentKeepsForestIff(cache + t, id, movie);
    assert (cache - {id}) + t[id := movie] == (cache + t)[id := movie];
  }

  /** One step of the walk up. */
  lemma TopOrParent(t: Movies, id: string, a: string)
    requires Sound(t) && id in t
    ensures t[id].parent == "" ==> !Beneath(t, id, a)
    ensures t[id].parent != "" && t[id].parent != a ==>
              t[id].parent in t && (Beneath(t, id, a) <==> Beneath(t, t[id].parent, a))
    ensures t[id].parent != "" && t[id].parent == a ==> Beneath(t, id, a)
  {
    BeneathParent(t, id, a);
    if t[id].parent == "" { NothingBeneathTop(t, "", a); }
  }

  // ---- The guards of the current movie ----

  /** What the guard lets through when `cid` is the current movie and has a row. */
  ghost predicate MayModify(t: Movies, view: Movies, cid: string, id: string)
    requires cid in t
  {
    && id != "" && id != cid && id in view
    && if view[id].folder then !Beneath(t, cid, id)
       else !(Beneath(t, cid, view[id].parent) && t[cid].parent != view[id].parent)
  }

  /** A file at the top level: what the guard does not protect, should anything lie below it. */
  predicate TopFile(t: Movies, id: string) {
    id in t && !t[id].folder && t[id].parent == ""
  }

  class Room {
    const movies: MovieList
    var current: string

    constructor ()
      ensures Valid() && Grounded() && ParentsAreFolders(movies.table) && current == "" && fresh(movies)
    {
      movies := new MovieList();
      current := "";
    }

    ghost predicate Valid()
      reads this, movies
    {
      movies.Valid()
    }

    /** No movie lies below itself, so that walks upwards end. */
    ghost predicate Grounded()
      reads this, movies
    {
      Forest(movies.View())
    }

    /** There is no current movie, or it has a row. */
    predicate Decided()
      reads this, movies
    {
      current == "" || current in movies.table
    }

    ghost predicate Modifiable(id: string)
      requires Decided()
      reads this, movies
    {
      current == "" || MayModify(movies.table, movies.View(), current, id)
    }

    method CheckCanModifyMovie(id: string) returns (r: Result<bool>)
      requires Valid() && Grounded()
      modifies movies`cache
      ensures Valid() && movies.View() == old(movies.View())
      ensures Decided() ==> (r.Ok? <==> Modifiable(id))
    {
      if id == "" {
        if current != "" { return Err("cannot modify current movie"); }
        return Ok(true);
      }
      if current != "" {
        if current == id { return Err("cannot modify current movie"); }
        var above := movies.IsParentFolder(current, id);
        if above.Err? { return Err("check parent failed"); }
        if above.value { return Err("cannot modify current movie's parent"); }
      }
      return Ok(true);
    }

    method CheckCanModifyMovies(ids: seq<string>) returns (r: Result<bool>)
      requires Valid() && Grounded()
      modifies movies`cache
      ensures Valid() && movies.View() == old(movies.View())
      ensures Decided() ==> (r.Ok? <==> ids != [] && forall id | id in ids :: Modifiable(id))
    {
      if |ids| == 0 { return Err("ids is nil"); }
      for i := 0 to |ids|
        invariant Valid() && movies.View() == old(movies.View())
        invariant Decided() ==> forall k | 0 <= k < i :: Modifiable(ids[k])
      {
        var ok := CheckCanModifyMovie(ids[i]);
        if ok.Err? { return ok; }
      }
      return Ok(true);
    }

    method AddMovie(id: string, movie: Movie) returns (r: Result<bool>)
      requires Valid() && Grounded() && id != ""
      modifies movies
      ensures Valid() && Grounded()
      ensures r.Ok? <==> id !in old(movies.table) && old(movies.ParentAllowed(movie.parent))
      ensures movies.table == if r.Ok? then old(movies.table)[id := movie] else old(movies.table)
      ensures old(ParentsAreFolders(movies.table)) ==> ParentsAreFolders(movies.table)
    {
      r := movies.AddMovie(id, movie);
    }

    /** An update changes the current movie or what lies above it only if it changes a top-level file
        above it. */
    method UpdateMovie(id: string, movie: Movie) returns (r: Result<bool>)
      requires Valid() && Grounded()
      modifies movies
      ensures Valid()
      ensures old(Decided()) ==>
                (r.Ok? <==> old(Modifiable(id)) && id in old(movies.table) && old(movies.ParentAllowed(movie.parent)))
      ensures movies.table == if r.Ok? then old(movies.table)[id := movie] else old(movies.table)
      ensures r.Err? ==> Grounded()
      ensures r.Ok? ==>
                && id in old(movies.table)
                && (Grounded() <==> movie.parent != id && !Beneath(old(movies.table), movie.parent, id))
                && (old(ParentsAreFolders(movies.table)) ==>
                      (ParentsAreFolders(movies.table) <==>
                         movie.folder || (movie.parent != id && forall x | x in old(movies.table) && x != id :: old(movies.table)[x].parent != id)))
      ensures current in old(movies.table) ==> current in movies.table && movies.table[current] == old(movies.table)[current]
      ensures r.Ok? && current in old(movies.table) && !(TopFile(old(movies.table), id) && Beneath(old(movies.table), current, id)) ==>
                forall n: nat :: Up(movies.table, current, n) == old(Up(movies.table, current, n))
    {
      r := CheckCanModifyMovie(id);
      if r.Err? { return; }
      ghost var before := movies.table;
      if current in before && id in before { AcceptedIff(before, movies.cache, current, id); }
      r := movies.Update(id, movie);
      if r.Ok? && current in before && !Beneath(before, current, id) { SparedStaysPut(before, current, id, movie, movies.table); }
    }

    /** An accepted delete removes the given movies with everything below them. It takes the current
        movie exactly if that lies below a top-level file among them. */
    method DeleteMoviesByID(ids: seq<string>) returns (r: Result<bool>)
      requires Valid() && Grounded()
      modifies movies
      ensures Valid() && Grounded()
      ensures old(Decided()) ==>
                (r.Ok? <==> (forall id | id in ids :: old(Modifiable(id))) && IdSet(ids) * old(movies.table).Keys != {})
      ensures movies.table == if r.Err? then old(movies.table)
                              else old(movies.table) - Cascade(old(movies.table), IdSet(ids) * old(movies.table).Keys)
      ensures r.Ok? && current in old(movies.table) ==>
                (current !in movies.table <==>
                   exists id | id in ids :: TopFile(old(movies.table), id) && Beneath(old(movies.table), current, id))
      ensures old(ParentsAreFolders(movies.table)) ==>
                ParentsAreFolders(movies.table) && (current in old(movies.table) ==> current in movies.table)
    {
      r := CheckCanModifyMovies(ids);
      if r.Err? { return; }
      ghost var before := movies.table;
      if current in before {
        LostIff(before, movies.cache, current, ids);
        TidyLosesNothing(before, current);
      }
      r := movies.DeleteMoviesByID(ids);
    }

    method DeleteMovieByID(id: string) returns (r: Result<bool>)
      requires Valid() && Grounded()
      modifies movies
      ensures Valid() && Grounded()
      ensures old(Decided()) ==> (r.Ok? <==> old(Modifiable(id)) && id in old(movies.table))
      ensures r.Ok? ==> id in old(movies.table)
      ensures movies.table == if r.Err? then old(movies.table) else old(movies.table) - Cascade(old(movies.table), {id})
      ensures r.Ok? && current in old(movies.table) ==>
                (current !in movies.table <==> TopFile(old(movies.table), id) && Beneath(old(movies.table), current, id))
      ensures old(ParentsAreFolders(movies.table)) ==>
                ParentsAreFolders(movies.table) && (current in old(movies.table) ==> current in movies.table)
    {
      r := CheckCanModifyMovie(id);
      if r.Err? { return; }
      ghost var before := movies.table;
      if current in before {
        LostIff(before, movies.cache, current, [id]);
        TidyLosesNothing(before, current);
      }
      assert IdSet([id]) == {id} && id in [id];
      r := movies.DeleteMoviesByID([id]);
      assert id in before ==> {id} * before.Keys == {id};
    }

    /** Likewise for clearing a folder. */
    method ClearMoviesByParentID(parentID: string) returns (r: Result<bool>)
      requires Valid() && Grounded()
      modifies movies
      ensures Valid() && Grounded()
      ensures old(Decided()) ==>
                (r.Ok? <==> old(Modifiable(parentID)) && Level(old(movies.table), {parentID}) != {})
      ensures movies.table == if r.Err? then old(movies.table)
                              else old(movies.table) - Cascade(old(movies.table), Level(old(movies.table), {parentID}))
      ensures r.Ok? && current in old(movies.table) ==>
                (current !in movies.table <==> TopFile(old(movies.table), parentID) && Beneath(old(movies.table), current, parentID))
      ensures old(ParentsAreFolders(movies.table)) ==>
                ParentsAreFolders(movies.table) && (current in old(movies.table) ==> current in movies.table)
    {
      r := CheckCanModifyMovie(parentID);
      if r.Err? { return; }
      ghost var before := movies.table;
      if current in before {
        ClearedIff(before, movies.cache, current, parentID);
        TidyLosesNothing(before, current);
      }
      r := movies.DeleteMoviesByParentID(parentID);
    }

    /** A movie that is gone for lookups blocks every later choice; a static folder is refused. */
    method SetCurrentMovie(id: string) returns (r: Result<bool>)
      requires Valid()
      modifies this`current, movies`cache
      ensures Valid() && movies.View() == old(movies.View())
      ensures var view := movies.View();
              r.Ok? <==> (old(current) == "" || old(current) in view)
                         && (id == "" || (id in view && (!view[id].folder || view[id].Dynamic())))
      ensures current == if r.Ok? then id else old(current)
    {
      if current != "" {
        var now := movies.GetMovieByID(current);
        if now.Err? { return Err(now.message); }
      }
      if id == "" {
        current := "";
        return Ok(true);
      }
      var found := movies.GetMovieByID(id);
      if found.Err? { return Err(found.message); }
      if found.value.folder && !found.value.Dynamic() { return Err("cannot set static folder as current movie"); }
      current := id;
      return Ok(true);
    }
  }

  /** Whatever has rows below it is a folder with a row. */
  lemma AboveIsFolder(t: Movies, id: string, a: string)
    requires Sound(t) && ParentsAreFolders(t) && id in t && Beneath(t, id, a)
    ensures a in t && t[a].folder
  {
    var n: nat :| n >= 1 && Up(t, id, n) == a;
    UpPlus(t, id, n - 1);
  }

  /** What the guard lets through: nothing at the current movie, and above it only a top-level file. */
  lemma AcceptedIff(t: Movies, cache: Movies, cid: string, id: string)
    requires Sound(t) && Coherent(cache, t) && Forest(cache + t) && cid in t && id in t
    ensures MayModify(t, cache + t, cid, id) <==>
            && id != cid && (Beneath(t, cid, id) ==> TopFile(t, id))
            && (t[id].folder || !Beneath(t, cid, t[id].parent) || t[cid].parent == t[id].parent)
  {
    PartKeepsForest(cache + t, t);
    if id != cid && !t[id].folder && Beneath(t, cid, id) && t[id].parent != "" {
      // id's own folder lies above the current movie, and is not its parent
      BeneathThrough(t, cid, id);
      if t[cid].parent == t[id].parent {
        BeneathParent(t, cid, id);
        assert t[cid].parent != id ==> Beneath(t, t[id].parent, id);
        BeneathParent(t, id, id);
        NotBeneathSelf(t, id);
        assert false;
      }
    }
    if TopFile(t, id) { assert !Beneath(t, cid, ""); }
  }

  /** What lies below a movie lies below its parent. */
  lemma BeneathThrough(t: Movies, cid: string, id: string)
    requires "" !in t && id in t && t[id].parent != "" && Beneath(t, cid, id)
    ensures Beneath(t, cid, t[id].parent)
  {
    var n: nat :| n >= 1 && Up(t, cid, n) == id;
    UpPlus(t, cid, n);
  }

  /** Exactly when the current movie goes with accepted ids: when it lies below a top-level file
      among them. */
  lemma LostIff(t: Movies, cache: Movies, cid: string, ids: seq<string>)
    requires Sound(t) && Coherent(cache, t) && Forest(cache + t) && cid in t
    requires forall id | id in ids :: MayModify(t, cache + t, cid, id)
    ensures cid in Cascade(t, IdSet(ids) * t.Keys) <==> exists id | id in ids :: TopFile(t, id) && Beneath(t, cid, id)
  {
    forall id | id in ids && id in t ensures id != cid && (Beneath(t, cid, id) ==> TopFile(t, id)) {
      AcceptedIff(t, cache, cid, id);
    }
    hide MayModify, Beneath, Cascade, Forest;
    CascadeIff(t, IdSet(ids) * t.Keys, cid);
  }

  /** For one id: whatever movie is current, an accepted delete spares it if and only if the id is a
      folder, lies in one, or has nothing below it. */
  lemma SparedByOneIff(t: Movies, cache: Movies, id: string)
    requires Sound(t) && Coherent(cache, t) && Forest(cache + t) && id in t
    ensures (forall cid | cid in t && MayModify(t, cache + t, cid, id) :: cid !in Cascade(t, {id})) <==>
            !TopFile(t, id) || forall x | x in t :: t[x].parent != id
  {
    hide Cascade, Forest;
    assert IdSet([id]) * t.Keys == {id} && id in [id];
    forall cid | cid in t && MayModify(t, cache + t, cid, id)
      ensures cid in Cascade(t, {id}) <==> TopFile(t, id) && Beneath(t, cid, id)
    {
      LostIff(t, cache, cid, [id]);
    }
    if x :| x in t && t[x].parent == id {
      BeneathParent(t, x, id);
      if TopFile(t, id) {
        AcceptedIff(t, cache, x, id);
        PartKeepsForest(cache + t, t);
        NotBeneathSelf(t, id);
        assert MayModify(t, cache + t, x, id) && x in Cascade(t, {id});
      }
    } else {
      forall cid | cid in t ensures !Beneath(t, cid, id) { NothingBelow(t, cid, id); }
    }
  }

  lemma NothingBelow(t: Movies, cid: string, id: string)
    requires "" !in t && cid in t && id != "" && forall x | x in t :: t[x].parent != id
    ensures !Beneath(t, cid, id)
  {
    if n: nat :| n >= 1 && Up(t, cid, n) == id { UpPlus(t, cid, n - 1); }
  }

  /** Exactly when the current movie goes with what lies in an accepted folder. */
  lemma ClearedIff(t: Movies, cache: Movies, cid: string, parentID: string)
    requires Sound(t) && Coherent(cache, t) && Forest(cache + t) && cid in t && MayModify(t, cache + t, cid, parentID)
    ensures cid in Cascade(t, Level(t, {parentID})) <==> TopFile(t, parentID) && Beneath(t, cid, parentID)
  {
    hide Cascade, Forest;
    CascadeIff(t, Level(t, {parentID}), cid);
    BelowLevelIff(t, cid, parentID);
    if parentID in t {
      AcceptedIff(t, cache, cid, parentID);
    } else if Beneath(t, cid, parentID) {
      AboveHasRow(t, cid, parentID);
      assert false;
    }
  }

  /** Below a movie lie its children and what lies below them. */
  lemma BelowLevelIff(t: Movies, cid: string, a: string)
    requires "" !in t && cid in t && a != ""
    ensures Beneath(t, cid, a) <==>
            cid in Level(t, {a}) || exists x :: x in Level(t, {a}) && Beneath(t, cid, x)
  {
    if Beneath(t, cid, a) {
      var n: nat :| n >= 1 && Up(t, cid, n) == a;
      UpPlus(t, cid, n - 1);
      var x := Up(t, cid, n - 1);
      assert x in Level(t, {a});
      if n > 1 { assert Beneath(t, cid, x); }
    }
    if cid in Level(t, {a}) { BeneathParent(t, cid, a); }
    if x :| x in Level(t, {a}) && Beneath(t, cid, x) { BeneathThrough(t, cid, x); }
  }

  lemma AboveHasRow(t: Movies, id: string, a: string)
    requires Sound(t) && id in t && Beneath(t, id, a)
    ensures a in t
  {
    var n: nat :| n >= 1 && Up(t, id, n) == a;
    UpPlus(t, id, n - 1);
  }

  /** Where parents are folders, no top-level file lies above anything. */
  lemma TidyLosesNothing(t: Movies, cid: string)
    requires Sound(t) && cid in t
    ensures ParentsAreFolders(t) ==> forall id :: !(TopFile(t, id) && Beneath(t, cid, id))
  {
    if ParentsAreFolders(t) {
      forall id | Beneath(t, cid, id) ensures !TopFile(t, id) { AboveIsFolder(t, cid, id); }
    }
  }

  lemma {:induction false} UpUnchanged(t: Movies, id: string, movie: Movie, from: string, n: nat)
    requires id != "" && from != id && !Beneath(t, from, id)
    ensures Up(t[id := movie], from, n) == Up(t, from, n)
    decreases n
  {
    if n > 0 && from in t {
      BeneathParent(t, from, id);
      UpUnchanged(t, id, movie, t[from].parent, n - 1);
    }
  }

  lemma SparedStaysPut(t: Movies, cid: string, id: string, movie: Movie, t': Movies)
    requires cid in t && id in t && id != "" && id != cid && !Beneath(t, cid, id) && t' == t[id := movie]
    ensures forall n: nat :: Up(t', cid, n) == Up(t, cid, n)
  {
    forall n: nat ensures Up(t', cid, n) == Up(t, cid, n) { UpUnchanged(t, id, movie, cid, n); }
  }

  // ---- Where the code promises less ----

  /** A folder may be moved below its own child: the save hook accepts the parent, and the rows
      form a cycle. */
  lemma CycleIsAccepted(t: Movies, moved: Movie)
    requires t == map["a" := Movie("", true, ""), "b" := Movie("a", true, "")] && moved == Movie("b", true, "")
    ensures Sound(t) && ParentsAreFolders(t) && Forest(t)
    ensures t[moved.parent].folder && !t[moved.parent].Dynamic() && !Forest(t["a" := moved])
  {
    assert Layered(t, map["a" := 0, "b" := 1]);
    assert Up(t, "b", 1) == Up(t, "a", 0);
    assert Beneath(t, "b", "a");
    ReparentKeepsForestIff(t, "a", moved);
  }

  /** Once a top-level folder with children has been turned into a file, the guard lets it be deleted,
      and a current movie below it goes along: for any name of the two. `LostIff` says exactly when. */
  lemma FileWithChildrenIsUnguarded(t: Movies, file: string, child: string)
    requires file != "" && child != "" && file != child
    requires t == map[file := Movie("", false, ""), child := Movie(file, false, "")]
    ensures Sound(t) && Forest(t) && !ParentsAreFolders(t)
    ensures MayModify(t, t, child, file) && child in Cascade(t, {file})
  {
    assert Layered(t, map[file := 0, child := 1]);
    assert !t[t[child].parent].folder;
    assert Up(t, child, 1) == Up(t, file, 0);
    CascadeReaches(t, {file}, child, 1);
  }
}
