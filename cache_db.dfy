/**
 * The SQLite hash cache of the scan worker (app/cache_db.py): one row per
 * path holding size, mtime, sha256, phash, width, height and kind. A row is
 * served only when the path, the size and the mtime all match, so a file
 * that changed on disk is measured again. The table is a map from path to
 * row; writes are visible to the connection at once and reach the file on
 * `commit` or `close`.
 */
module CacheDb {
  import opened Wrappers

  /** A row of the `files` table, keyed by its path (lines 17-26). */
  datatype Row = Row(size: int, mtime: real, sha256: string, phash: string, width: int, height: int, kind: string)

  /** The five columns `get` selects (line 32). */
  datatype Hit = Hit(sha256: string, phash: string, width: int, height: int, kind: string)

  function HitOf(r: Row): Hit
  {
    Hit(r.sha256, r.phash, r.width, r.height, r.kind)
  }

  /** `SELECT ... WHERE path=? AND size=? AND mtime=?` followed by `fetchone()`. */
  function Lookup(rows: map<string, Row>, path: string, size: int, mtime: real): Option<Hit>
  {
    if path in rows && rows[path].size == size && rows[path].mtime == mtime then Some(HitOf(rows[path])) else None
  }

  class HashCache {
    /** The table as the connection sees it, uncommitted writes included. */
    var rows: map<string, Row>
    /** The table as the database file holds it. */
    var committed: map<string, Row>
    var isOpen: bool

    /** Opens the database whose file already holds `stored` (lines 6-28);
        the table is created empty when the file is new. */
    constructor (stored: map<string, Row>)
      ensures rows == stored && committed == stored && isOpen
    {
      rows := stored;
      committed := stored;
      isOpen := true;
    }

    /** A row is returned only when path, size and mtime all match (lines 30-35). */
    method Get(path: string, size: int, mtime: real) returns (r: Option<Hit>)
      requires isOpen
      ensures r.Some? <==> path in rows && rows[path].size == size && rows[path].mtime == mtime
      ensures r.Some? ==> r.value == HitOf(rows[path])
      ensures r == Lookup(rows, path, size, mtime)
    {
      if path in rows && rows[path].size == size && rows[path].mtime == mtime {
        r := Some(HitOf(rows[path]));
      } else {
        r := None;
      }
    }

    /** `INSERT ... ON CONFLICT(path) DO UPDATE SET` every column (lines 37-52):
        the row of `path` is replaced wholesale, all other rows stay. */
    method Upsert(path: string, size: int, mtime: real, sha256: string, phash: string,
                  width: int, height: int, kind: string)
      requires isOpen
      modifies this
      ensures rows == old(rows)[path := Row(size, mtime, sha256, phash, width, height, kind)]
      ensures committed == old(committed) && isOpen
    {
      rows := rows[path := Row(size, mtime, sha256, phash, width, height, kind)];
    }

    /** Makes the connection's writes durable (lines 54-55). */
    method Commit()
      requires isOpen
      modifies this
      ensures committed == rows && rows == old(rows) && isOpen
    {
      committed := rows;
    }

    /** Commits, then releases the connection (lines 57-61). */
    method Close()
      requires isOpen
      modifies this
      ensures committed == old(rows) && rows == old(rows) && !isOpen
    {
      committed := rows;
      isOpen := false;
    }
  }

  /** After an upsert, asking with the same path, size and mtime returns
      exactly the columns written. */
  lemma UpsertThenGet(rows: map<string, Row>, path: string, r: Row)
    ensures Lookup(rows[path := r], path, r.size, r.mtime) == Some(HitOf(r))
  {
  }

  /** After an upsert, asking with the same path but another size or mtime
      misses, whatever the table held before. */
  lemma UpsertThenStaleGet(rows: map<string, Row>, path: string, r: Row, size: int, mtime: real)
    requires size != r.size || mtime != r.mtime
    ensures Lookup(rows[path := r], path, size, mtime) == None
  {
  }

  /** An upsert of one path leaves every answer about other paths as it was. */
  lemma UpsertKeepsOthers(rows: map<string, Row>, path: string, r: Row, other: string, size: int, mtime: real)
    requires other != path
    ensures Lookup(rows[path := r], other, size, mtime) == Lookup(rows, other, size, mtime)
  {
  }

  /** The last write wins, an empty phash included, and writing the same row
      twice is the same as writing it once. */
  lemma UpsertOverwrites(rows: map<string, Row>, path: string, r1: Row, r2: Row)
    ensures rows[path := r1][path := r2] == rows[path := r2]
    ensures rows[path := r2][path := r2] == rows[path := r2]
  {
  }
}
