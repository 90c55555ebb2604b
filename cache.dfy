/** The thumbnail cache (src/cache.rs): a directory of files named by cache
    key. The directory's contents are the map `files` from file name to
    bytes; the directory path is a string built the way `PathBuf::join`
    builds it on Unix. */
module Cache {
  import opened Strings
  import opened Wrappers
  import Cliphist

  /** `PathBuf::join` on Unix: an absolute component replaces the path;
      otherwise a `/` is inserted unless the path is empty or already ends
      with one. */
  function Join(base: string, component: string): (p: string)
    ensures |component| > 0 && component[0] == '/' ==> p == component
    ensures (|component| == 0 || component[0] != '/') && (|base| == 0 || base[|base| - 1] == '/') ==> p == base + component
    ensures (|component| == 0 || component[0] != '/') && |base| > 0 && base[|base| - 1] != '/' ==> p == base + "/" + component
  {
    if |component| > 0 && component[0] == '/' then component
    else if |base| == 0 || base[|base| - 1] == '/' then base + component
    else base + "/" + component
  }

  /** Left fold of `Join` over the components. */
  function JoinAll(base: string, components: seq<string>): string
    decreases |components|
  {
    if |components| == 0 then base else JoinAll(Join(base, components[0]), components[1..])
  }

  /** The path computation of `init_cache_dir`: the cache root joined with
      each `/`-separated component of `hierarchy`, in order. */
  function InitCacheDir(root: string, hierarchy: string): string
  {
    JoinAll(root, Split(hierarchy, '/'))
  }

  lemma {:induction false} JoinAllPlain(base: string, components: seq<string>)
    requires |base| > 0 && base[|base| - 1] != '/'
    requires forall i :: 0 <= i < |components| ==> components[i] != "" && '/' !in components[i]
    ensures |components| > 0 ==> JoinAll(base, components) == base + "/" + JoinWith(components, '/')
    decreases |components|
  {
    if |components| > 0 {
      var next := Join(base, components[0]);
      assert components[0][0] in components[0];
      assert next == base + "/" + components[0];
      var c := components[0];
      assert next[|next| - 1] == c[|c| - 1];
      assert c[|c| - 1] in c;
      JoinAllPlain(next, components[1..]);
      if |components| > 1 {
        assert JoinWith(components, '/') == components[0] + "/" + JoinWith(components[1..], '/');
      }
    }
  }

  /** With a root that does not end in `/` and no empty component (no
      leading, trailing or doubled `/`), the cache directory is the root,
      a `/`, and the hierarchy verbatim. */
  lemma InitCacheDirPath(root: string, hierarchy: string)
    requires |root| > 0 && root[|root| - 1] != '/'
    requires forall i :: 0 <= i < |Split(hierarchy, '/')| ==> Split(hierarchy, '/')[i] != ""
    ensures InitCacheDir(root, hierarchy) == root + "/" + hierarchy
  {
    JoinAllPlain(root, Split(hierarchy, '/'));
    JoinSplit(hierarchy, '/');
  }

  /** The directory after `prune(keep)`: the files whose names are kept. */
  function Pruned(files: map<string, seq<bv8>>, keep: set<string>): (r: map<string, seq<bv8>>)
    ensures r.Keys == files.Keys * keep
    ensures forall k :: k in r ==> r[k] == files[k]
  {
    map k | k in files && k in keep :: files[k]
  }

  /** What `prune(keep)` returns: the number of files it deletes. */
  function PruneCount(files: map<string, seq<bv8>>, keep: set<string>): nat
  {
    |files.Keys - keep|
  }

  /** Pruning twice with the same names deletes nothing the second time. */
  lemma PruneIdempotent(files: map<string, seq<bv8>>, keep: set<string>)
    ensures Pruned(Pruned(files, keep), keep) == Pruned(files, keep)
    ensures PruneCount(Pruned(files, keep), keep) == 0
  {
    var once := Pruned(files, keep);
    assert once.Keys - keep == {};
  }

  /** A directory holding exactly the kept names, with their old contents,
      is the pruned directory. */
  lemma SameAsPruned(now: map<string, seq<bv8>>, before: map<string, seq<bv8>>, keep: set<string>)
    requires now.Keys == before.Keys - (before.Keys - keep)
    requires forall k :: k in now ==> now[k] == before[k]
    ensures now == Pruned(before, keep)
  {
    assert now.Keys == Pruned(before, keep).Keys;
  }

  class SimpleCache {
    /** The cache directory. */
    const dir: string
    /** The regular files directly under `dir`, by name. */
    var files: map<string, seq<bv8>>

    /** `SimpleCache::new(hierarchy)` over a cache root `root`; `onDisk` is
        what the directory already holds (nothing when it is created). */
    constructor (root: string, hierarchy: string, onDisk: map<string, seq<bv8>>)
      ensures dir == InitCacheDir(root, hierarchy) && files == onDisk
    {
      dir := InitCacheDir(root, hierarchy);
      files := onDisk;
    }

    /** `exists(id)`: a regular file named `id` is in the directory. */
    predicate Exists(id: string)
      reads this
    {
      id in files
    }

    /** The regular file at `path`, when `path` names a file directly inside
        the cache directory; no other path is modelled. */
    ghost function FileAt(path: string): Option<seq<bv8>>
      reads this
    {
      var n := |dir| + 1;
      if |path| > n && path[..n] == dir + "/" && path[n..] in files then Some(files[path[n..]])
      else None
    }

    /** `path(id)`: where the file named `id` is, whether or not it exists. */
    function PathOf(id: string): string
    {
      Join(dir, id)
    }

    /** `add(entry, value)`: writes `value` to the file named by the entry's
        cache key, replacing any previous content; no other file changes. */
    method Add(entry: Cliphist.Entry, value: seq<bv8>)
      modifies this
      ensures files == old(files)[Cliphist.CacheKey(entry) := value]
      ensures Exists(Cliphist.CacheKey(entry))
      ensures forall k :: k != Cliphist.CacheKey(entry) ==> (Exists(k) <==> old(Exists(k)))
    {
      files := files[Cliphist.CacheKey(entry) := value];
    }

    /** `prune(excludes)`: deletes every file whose name is not in `excludes`,
        one by one, and counts the deletions. */
    method Prune(excludes: seq<string>) returns (deleted: nat)
      modifies this
      ensures files == Pruned(old(files), set e | e in excludes)
      ensures deleted == PruneCount(old(files), set e | e in excludes)
    {
      ghost var keep := set e | e in excludes;
      var toDelete := set k | k in files && k !in excludes;
      ghost var victims := toDelete;
      assert victims == old(files).Keys - keep;
      deleted := 0;
      while toDelete != {}
        invariant toDelete <= victims
        invariant files.Keys == old(files).Keys - (victims - toDelete)
        invariant forall k :: k in files ==> files[k] == old(files)[k]
        invariant deleted + |toDelete| == |victims|
        decreases toDelete
      {
        var name :| name in toDelete;
        assert name in files;
        assert |toDelete - {name}| == |toDelete| - 1;
        files := files - {name};
        toDelete := toDelete - {name};
        deleted := deleted + 1;
      }
      SameAsPruned(files, old(files), keep);
    }
  }

  /** With a plain directory and a plain name, `path` is `dir/name`. */
  /** A cache name: non-empty, no `/`, so that joining it stays inside the
      directory. */
  predicate PlainName(id: string)
  {
    |id| > 0 && '/' !in id
  }

  /** `exists(id)` asks about the very file that `path(id)` names: for a
      plain name in a plain directory it holds exactly when a regular file
      is at `path(id)`, and that file is the named one. */
  lemma ExistsAtPath(c: SimpleCache, id: string)
    requires |c.dir| > 0 && c.dir[|c.dir| - 1] != '/'
    requires PlainName(id)
    ensures c.Exists(id) <==> c.FileAt(c.PathOf(id)).Some?
    ensures c.Exists(id) ==> c.FileAt(c.PathOf(id)) == Some(c.files[id])
  {
    var n := |c.dir| + 1;
    var p := c.PathOf(id);
    assert p == c.dir + "/" + id;
    assert p[..n] == c.dir + "/" && p[n..] == id;
  }

  lemma PathOfPlain(c: SimpleCache, id: string)
    requires |c.dir| > 0 && c.dir[|c.dir| - 1] != '/'
    requires |id| > 0 && id[0] != '/'
    ensures c.PathOf(id) == c.dir + "/" + id
  {
  }
}
