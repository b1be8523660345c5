/**
 * Read-only queries over the `files` table (`get_record` and
 * `get_all_records` in main.py). The table is a map from the `id`
 * primary key to the `filename` column.
 */
module Records {
  import opened Wrappers

  /** One row of the `files` table, as the cursor returns it: (id, filename). */
  datatype Record = Record(id: string, filename: string)

  /** One entry of the listing: the file's access URL and its original name. */
  datatype Listed = Listed(url: string, filename: string)

  /** `FILEURL`: the configured domain followed by the path that serves files inline. */
  function FileUrl(domain: string): string
  {
    domain + "/static/file/"
  }

  /** `SELECT * FROM files WHERE id=?` followed by `fetchone()`. */
  function GetRecord(table: map<string, string>, id: string): (r: Option<Record>)
    ensures r.Some? <==> id in table
    ensures r.Some? ==> r.value.id == id && r.value.filename == table[id]
  {
    if id in table then Some(Record(id, table[id])) else None
  }

  /**
   * An order in which `fetchall()` may return the rows: every row once.
   * SQLite promises no particular order, so the listing takes it as input.
   */
  ghost predicate IsRowOrder(rows: seq<string>, table: map<string, string>)
  {
    && (forall i, j :: 0 <= i < j < |rows| ==> rows[i] != rows[j])
    && (forall i :: 0 <= i < |rows| ==> rows[i] in table)
    && (forall id :: id in table ==> id in rows)
  }

  /** Every table has a row order, so the listing is defined on every table. */
  ghost function SomeRowOrder(table: map<string, string>): (rows: seq<string>)
    ensures IsRowOrder(rows, table)
    decreases |table|
  {
    if |table| == 0 then []
    else
      var k :| k in table;
      [k] + SomeRowOrder(table - {k})
  }

  lemma {:induction false} DistinctCard(rows: seq<string>)
    requires forall i, j :: 0 <= i < j < |rows| ==> rows[i] != rows[j]
    ensures |set x | x in rows| == |rows|
    decreases |rows|
  {
    if |rows| > 0 {
      var rest := rows[1..];
      assert (set x | x in rows) == {rows[0]} + (set x | x in rest);
      assert rows[0] !in rest by {
        forall j | 0 <= j < |rest| ensures rest[j] != rows[0] {
          assert rest[j] == rows[j + 1];
        }
      }
      assert forall i, j :: 0 <= i < j < |rest| ==> rest[i] != rest[j] by {
        forall i, j | 0 <= i < j < |rest| ensures rest[i] != rest[j] {
          assert rest[i] == rows[i + 1] && rest[j] == rows[j + 1];
        }
      }
      DistinctCard(rest);
    }
  }

  /** A row order lists exactly as many ids as the table has rows. */
  lemma RowOrderLength(rows: seq<string>, table: map<string, string>)
    requires IsRowOrder(rows, table)
    ensures |rows| == |table|
  {
    DistinctCard(rows);
    assert (set x | x in rows) == table.Keys;
  }

  /** The id encoded in an access URL, when the URL starts with the file-URL prefix. */
  function IdOfUrl(domain: string, url: string): (id: Option<string>)
    ensures id.Some? ==> url == FileUrl(domain) + id.value
    ensures (exists s :: url == FileUrl(domain) + s) ==> id.Some?
  {
    var p := FileUrl(domain);
    if |p| <= |url| && url[..|p|] == p then Some(url[|p|..]) else None
  }

  /** The ids of a listing are recovered from its URLs. */
  lemma IdOfUrlInverse(domain: string, id: string)
    ensures IdOfUrl(domain, FileUrl(domain) + id) == Some(id)
  {
  }

  /**
   * `get_all_records`: every row, with `FILEURL` prepended to its id and
   * the filename unchanged, one entry per fetched row, in fetch order
   * (AllRecordsAt).
   */
  function AllRecords(table: map<string, string>, domain: string, rows: seq<string>): (r: seq<Listed>)
    requires IsRowOrder(rows, table)
    ensures |r| == |table|
    ensures forall id :: id in table ==> Listed(FileUrl(domain) + id, table[id]) in r
    ensures forall i :: 0 <= i < |r| ==>
      exists id :: GetRecord(table, id) == Some(Record(id, r[i].filename)) && r[i].url == FileUrl(domain) + id
  {
    RowOrderLength(rows, table);
    var r := seq(|rows|, i requires 0 <= i < |rows| => Listed(FileUrl(domain) + rows[i], table[rows[i]]));
    assert forall id :: id in table ==> Listed(FileUrl(domain) + id, table[id]) in r by {
      forall id | id in table ensures Listed(FileUrl(domain) + id, table[id]) in r {
        var i :| 0 <= i < |rows| && rows[i] == id;
        assert r[i] == Listed(FileUrl(domain) + id, table[id]);
      }
    }
    r
  }

  /**
   * The listing keeps the fetch order: entry i's URL decodes to the i-th
   * fetched id, and looking that id up gives the listed filename.
   */
  lemma AllRecordsAt(table: map<string, string>, domain: string, rows: seq<string>, i: nat)
    requires IsRowOrder(rows, table) && i < |rows|
    ensures |AllRecords(table, domain, rows)| == |rows|
    ensures IdOfUrl(domain, AllRecords(table, domain, rows)[i].url) == Some(rows[i])
    ensures GetRecord(table, rows[i]) == Some(Record(rows[i], AllRecords(table, domain, rows)[i].filename))
  {
    RowOrderLength(rows, table);
    IdOfUrlInverse(domain, rows[i]);
  }

  /**
   * Listing and lookup agree: the URL of every listed entry carries an id
   * whose record has the entry's filename, and the URLs are pairwise distinct.
   */
  lemma ListingMatchesLookup(table: map<string, string>, domain: string, rows: seq<string>, i: nat)
    requires IsRowOrder(rows, table) && i < |AllRecords(table, domain, rows)|
    ensures var e := AllRecords(table, domain, rows)[i];
      IdOfUrl(domain, e.url).Some?
      && GetRecord(table, IdOfUrl(domain, e.url).value) == Some(Record(IdOfUrl(domain, e.url).value, e.filename))
  {
  }

  /** Two entries of one listing never share a URL. */
  lemma ListingUrlsDistinct(table: map<string, string>, domain: string, rows: seq<string>, i: nat, j: nat)
    requires IsRowOrder(rows, table) && i < j < |AllRecords(table, domain, rows)|
    ensures AllRecords(table, domain, rows)[i].url != AllRecords(table, domain, rows)[j].url
  {
    var r := AllRecords(table, domain, rows);
    RowOrderLength(rows, table);
    assert r[i].url == FileUrl(domain) + rows[i];
    assert r[j].url == FileUrl(domain) + rows[j];
    IdOfUrlInverse(domain, rows[i]);
    IdOfUrlInverse(domain, rows[j]);
  }

  /** Lookup after an insert: the new row is found, every other answer is unchanged. */
  lemma GetAfterInsert(table: map<string, string>, id: string, filename: string, q: string)
    ensures GetRecord(table[id := filename], q) == if q == id then Some(Record(id, filename)) else GetRecord(table, q)
  {
  }

  /** Lookup after a delete: the deleted id is gone, every other answer is unchanged. */
  lemma GetAfterDelete(table: map<string, string>, id: string, q: string)
    ensures GetRecord(table - {id}, q) == if q == id then None else GetRecord(table, q)
  {
  }
}
