/** The start-up sweep of cleanUpCache (gtkcord/cache/cache.go): every
    entry of the temp directory that belongs to an earlier cache version is
    deleted, the current cache directory and everything else are kept. */
module Sweep {
  import opened Text
  import opened CacheKey

  /** An entry named like a cache directory of another version: it starts
      with the cache prefix and is not the current directory. */
  predicate IsStale(name: string)
    ensures IsStale(name) ==> HasPrefix(name, CachePrefix)
    ensures name == DirName ==> !IsStale(name)
  {
    HasPrefix(name, CachePrefix + "-") && name != DirName
  }

  /** The stale entries of a listing, in listing order. */
  function StaleEntries(names: seq<string>): seq<string>
    decreases |names|
  {
    if names == [] then []
    else
      var last := names[|names| - 1];
      StaleEntries(names[..|names| - 1]) + (if IsStale(last) then [last] else [])
  }

  /** Exactly the stale names of the listing are selected. */
  lemma {:induction false} StaleEntriesExact(names: seq<string>)
    ensures forall d :: d in StaleEntries(names) <==> d in names && IsStale(d)
    decreases |names|
  {
    if names != [] {
      var init := names[..|names| - 1];
      StaleEntriesExact(init);
      assert names == init + [names[|names| - 1]];
    }
  }

  /** The current cache directory is never deleted. */
  lemma CurrentDirKept(names: seq<string>)
    ensures DirName !in StaleEntries(names)
  {
    StaleEntriesExact(names);
  }

  /** After the version hash changes, the previous version's directory is
      deleted at the next start-up. */
  lemma PreviousVersionSwept(names: seq<string>, oldHash: string)
    requires oldHash != CacheHash && CachePrefix + "-" + oldHash in names
    ensures CachePrefix + "-" + oldHash in StaleEntries(names)
  {
    StaleEntriesExact(names);
    var d := CachePrefix + "-" + oldHash;
    assert d[..|CachePrefix + "-"|] == CachePrefix + "-";
    assert d[|CachePrefix + "-"|..] == oldHash;
    assert DirName[|CachePrefix + "-"|..] == CacheHash;
  }

  /** cleanUpCache: given the listing of the temp directory (None when the
      directory cannot be opened or listed, in which case nothing is
      deleted), the names whose directories are removed, in the order the
      loop removes them. */
  method CleanUpCache(listing: Option<seq<string>>) returns (deleted: seq<string>)
    ensures listing.None? ==> deleted == []
    ensures listing.Some? ==> deleted == StaleEntries(listing.value)
  {
    deleted := [];
    if listing.None? {
      return;
    }
    var dirs := listing.value;
    var i := 0;
    while i < |dirs|
      invariant 0 <= i <= |dirs|
      invariant deleted == StaleEntries(dirs[..i])
    {
      var d := dirs[i];
      if HasPrefix(d, CachePrefix + "-") && d != DirName {
        deleted := deleted + [d];
      }
      assert dirs[..i + 1][..i] == dirs[..i];
      i := i + 1;
    }
    assert dirs[..i] == dirs;
  }
}
