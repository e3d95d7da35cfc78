/**
 The `contents` table shared by both crawlers, keyed by the numeric content
 id, and its two write paths: the full-record upsert of kakao.js, which
 overwrites every detail column, and the revisit upsert of link.js, which
 touches only the `re` flag. The table is a map from id to row; the
 better-sqlite3 handle becomes a `ContentsTable` object whose transaction is
 a snapshot taken at BEGIN and restored at ROLLBACK.
 */
module Contents {
  import opened Wrappers

  /** The detail columns of one title, as kakao.js assembles them
      (kakao.js:148-159); `id` is the conflict key. */
  datatype Record = Record(
    id: nat,
    title: Option<string>,
    author: Option<string>,
    cover: Option<string>,
    genre: Option<string>,
    views: Option<int>,
    rating: Option<int>,
    schedule: Option<string>,
    startDate: Option<string>,
    currentEp: Option<nat>)

  /** One stored row: the detail columns plus the revisit flag `re`
      (SQL `NULL` is `false`, the value 1 is `true`). */
  datatype Row = Row(
    title: Option<string>,
    author: Option<string>,
    cover: Option<string>,
    genre: Option<string>,
    views: Option<int>,
    rating: Option<int>,
    schedule: Option<string>,
    startDate: Option<string>,
    currentEp: Option<nat>,
    re: bool)

  type Table = map<nat, Row>

  /** The detail columns of a stored row, read back as a record. */
  function Details(id: nat, row: Row): Record {
    Record(id, row.title, row.author, row.cover, row.genre, row.views, row.rating,
           row.schedule, row.startDate, row.currentEp)
  }

  /** The row created by `INSERT INTO contents (id, re) VALUES (@id, 1)`:
      every detail column `NULL`. */
  const RevisitOnly: Row := Row(None, None, None, None, None, None, None, None, None, true)

  /** The full-record upsert of kakao.js:71-78: insert the record, or on a
      conflicting id overwrite all nine detail columns, `NULL`s included;
      `re` is not among the columns written, so an existing flag is kept and
      a new row starts without it. */
  function WithContent(t: Table, rec: Record): (r: Table)
    ensures r.Keys == t.Keys + {rec.id}
    ensures forall k :: k in t && k != rec.id ==> r[k] == t[k]
    ensures Details(rec.id, r[rec.id]) == rec
    ensures r[rec.id].re == (rec.id in t && t[rec.id].re)
  {
    var re := rec.id in t && t[rec.id].re;
    t[rec.id := Row(rec.title, rec.author, rec.cover, rec.genre, rec.views, rec.rating,
                    rec.schedule, rec.startDate, rec.currentEp, re)]
  }

  /** The revisit upsert of link.js:161-165: insert `(id, re = 1)`, or on a
      conflicting id set only `re = 1`. */
  function WithRevisit(t: Table, id: nat): (r: Table)
    ensures r.Keys == t.Keys + {id}
    ensures forall k :: k in t && k != id ==> r[k] == t[k]
    ensures r[id].re
    ensures id in t ==> Details(id, r[id]) == Details(id, t[id])
    ensures id !in t ==> r[id] == RevisitOnly
  {
    if id in t then t[id := t[id].(re := true)] else t[id := RevisitOnly]
  }

  /** Upserting the same record twice leaves the table as upserting it once. */
  lemma WithContentIdempotent(t: Table, rec: Record)
    ensures WithContent(WithContent(t, rec), rec) == WithContent(t, rec)
  {
    var once := WithContent(t, rec);
    var twice := WithContent(once, rec);
    assert twice[rec.id] == once[rec.id];
  }

  /** Marking a row revisited twice is marking it once. */
  lemma WithRevisitIdempotent(t: Table, id: nat)
    ensures WithRevisit(WithRevisit(t, id), id) == WithRevisit(t, id)
  {
    var once := WithRevisit(t, id);
    assert once[id].(re := true) == once[id];
  }

  /** The two write paths commute: the detail columns come from the record
      and the flag is set, whichever ran first. */
  lemma UpsertsCommute(t: Table, rec: Record, id: nat)
    ensures WithContent(WithRevisit(t, id), rec) == WithRevisit(WithContent(t, rec), id)
  {
    var a := WithContent(WithRevisit(t, id), rec);
    var b := WithRevisit(WithContent(t, rec), id);
    assert a.Keys == b.Keys;
    forall k | k in a
      ensures a[k] == b[k]
    {
      if k == rec.id && k == id {
        assert Details(k, a[k]) == rec == Details(k, b[k]);
      }
    }
  }

  /** The storage handle: the table, and the snapshot a transaction started
      from (SQLite's journal). */
  class ContentsTable {
    var rows: Table
    var inTransaction: bool
    var snapshot: Table

    constructor (initial: Table)
      ensures rows == initial && !inTransaction
    {
      rows := initial;
      inTransaction := false;
      snapshot := initial;
    }

    /** `db.exec('BEGIN')` */
    method Begin()
      requires !inTransaction
      modifies this
      ensures inTransaction && rows == old(rows) && snapshot == old(rows)
    {
      inTransaction := true;
      snapshot := rows;
    }

    /** `db.exec('COMMIT')`: the writes since BEGIN stay. */
    method Commit()
      requires inTransaction
      modifies this
      ensures !inTransaction && rows == old(rows)
    {
      inTransaction := false;
    }

    /** `db.exec('ROLLBACK')`, or a connection dropped while a transaction is
      open: every write since BEGIN is undone. */
    method Rollback()
      requires inTransaction
      modifies this
      ensures !inTransaction && rows == old(snapshot)
    {
      inTransaction := false;
      rows := snapshot;
    }

    /** `upsertStmt.run(record)` of kakao.js:165 */
    method Upsert(rec: Record)
      modifies this`rows
      ensures rows == WithContent(old(rows), rec)
    {
      rows := WithContent(rows, rec);
    }

    /** `stmt.run({ id })` of link.js:170 */
    method MarkRevisited(id: nat)
      modifies this`rows
      ensures rows == WithRevisit(old(rows), id)
    {
      rows := WithRevisit(rows, id);
    }
  }
}
