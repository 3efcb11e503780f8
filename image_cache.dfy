/**
 * The pickle-backed cache of core/cache.py: a dictionary from file path to
 * the mtime, hash and blur score recorded for it. An entry is served only
 * while the file's mtime is the one recorded. The file in the scanned
 * folder is an input here: missing, unreadable, or holding a dictionary.
 */
module ImageCache {
  import opened Wrappers

  /** The dictionary stored per path (lines 44-48). `mtime` is `None` for an
      entry read from a file that lacks the key, which `cached.get('mtime')`
      then reads as `None`. */
  datatype Entry<H> = Entry(mtime: Option<real>, hash: H, blurScore: real)

  /** What `folder/cache_file` holds when `load` opens it. */
  datatype CacheFile<H> = Missing | Unreadable | Pickled(data: map<string, Entry<H>>)

  /** `data` after `load` (lines 10-22): the pickled dictionary, or an empty
      one when the file is missing or cannot be unpickled. */
  function Loaded<H>(f: CacheFile<H>): (d: map<string, Entry<H>>)
    ensures !f.Pickled? ==> d == map[]
  {
    match f
    case Pickled(d) => d
    case _ => map[]
  }

  /** Where `save` can fail: opening the file for writing (`open(..., 'wb')`),
      which leaves it untouched, or pickling into it after `open` has
      already truncated it. */
  datatype SaveFailure = OpenFails | DumpFails

  /** The file after `save` (lines 24-32): the dictionary when writing
      succeeds; the file as it was when `open` fails; a truncated, partly
      written file that no longer unpickles when `pickle.dump` fails. The
      error is only printed. */
  function Saved<H>(data: map<string, Entry<H>>, failure: Option<SaveFailure>, before: CacheFile<H>): (after: CacheFile<H>)
    ensures failure.None? ==> Loaded(after) == data
    ensures failure == Some(OpenFails) ==> after == before
    ensures failure == Some(DumpFails) ==> Loaded(after) == map[]
  {
    match failure
    case None => Pickled(data)
    case Some(OpenFails) => before
    case Some(DumpFails) => Unreadable
  }

  /** `get(file_path, mtime)` (lines 34-40). */
  function Fetch<H>(data: map<string, Entry<H>>, path: string, mtime: real): Option<Entry<H>>
  {
    if path in data && data[path].mtime == Some(mtime) then Some(data[path]) else None
  }

  class Cache<H> {
    var cacheFile: string
    var data: map<string, Entry<H>>

    /** A new cache is empty (lines 6-8). */
    constructor (cacheFile: string)
      ensures this.cacheFile == cacheFile && data == map[]
    {
      this.cacheFile := cacheFile;
      data := map[];
    }

    /** Replaces `data` with what the cache file holds, or with an empty
        dictionary (lines 10-22). */
    method Load(file: CacheFile<H>)
      modifies this
      ensures data == Loaded(file) && cacheFile == old(cacheFile)
    {
      if file.Pickled? {
        data := file.data;
      } else {
        data := map[];
      }
    }

    /** Writes `data` to the cache file (lines 24-32). A failure to open
        the file leaves it alone; a failure while pickling leaves it
        truncated and unreadable. */
    method Save(failure: Option<SaveFailure>, before: CacheFile<H>) returns (after: CacheFile<H>)
      ensures failure.None? ==> after == Pickled(data)
      ensures failure == Some(OpenFails) ==> after == before
      ensures failure == Some(DumpFails) ==> after == Unreadable
      ensures after == Saved(data, failure, before)
    {
      if failure.None? {
        after := Pickled(data);
      } else if failure == Some(OpenFails) {
        after := before;
      } else {
        after := Unreadable;
      }
    }

    /** The entry of `path` when its recorded mtime equals `mtime`; nothing
        for a path never set (lines 34-40). The size of the file plays no part. */
    method Get(path: string, mtime: real) returns (r: Option<Entry<H>>)
      ensures r.Some? <==> path in data && data[path].mtime == Some(mtime)
      ensures r.Some? ==> r.value == data[path]
      ensures r == Fetch(data, path, mtime)
    {
      if path in data {
        var cached := data[path];
        if cached.mtime == Some(mtime) {
          return Some(cached);
        }
      }
      return None;
    }

    /** Replaces the entry of `path` wholesale and leaves every other entry
        (lines 42-48). */
    method Set(path: string, mtime: real, hash: H, blurScore: real)
      modifies this
      ensures data == old(data)[path := Entry(Some(mtime), hash, blurScore)]
      ensures cacheFile == old(cacheFile)
    {
      data := data[path := Entry(Some(mtime), hash, blurScore)];
    }
  }

  /** A `set` followed by a `get` with the same mtime returns what was set;
      with another mtime it misses. */
  lemma SetThenGet<H>(data: map<string, Entry<H>>, path: string, mtime: real, hash: H, blurScore: real, asked: real)
    ensures Fetch(data[path := Entry(Some(mtime), hash, blurScore)], path, asked) ==
      if asked == mtime then Some(Entry(Some(mtime), hash, blurScore)) else None
  {
  }

  /** A `set` of one path leaves every answer about other paths as it was. */
  lemma SetKeepsOthers<H>(data: map<string, Entry<H>>, path: string, e: Entry<H>, other: string, mtime: real)
    requires other != path
    ensures Fetch(data[path := e], other, mtime) == Fetch(data, other, mtime)
  {
  }

  /** A cache saved without error loads back unchanged; a cache whose save
      failed while pickling, or whose file is missing or unreadable, loads
      as empty and serves nothing. */
  lemma SaveThenLoad<H>(data: map<string, Entry<H>>, before: CacheFile<H>, path: string, mtime: real)
    ensures Loaded(Saved(data, None, before)) == data
    ensures Fetch(Loaded(Saved(data, Some(DumpFails), before)), path, mtime) == None
    ensures Fetch(Loaded<H>(Missing), path, mtime) == None && Fetch(Loaded<H>(Unreadable), path, mtime) == None
  {
  }
}
