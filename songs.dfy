/** The `songs` table of songs.db as a value, and the rule by which saveSong
    decides whether a polled song is new. */
module Songs {

  datatype Option<T> = None | Some(value: T)

  /** One row of the `songs` table: id INTEGER PRIMARY KEY AUTOINCREMENT,
      artist TEXT, title TEXT, timestamp TEXT (an ISO 8601 string, opaque here). */
  datatype Row = Row(id: int, artist: string, title: string, timestamp: string)

  /** The rows of the table in insertion order, and AUTOINCREMENT's counter:
      the largest id the table has ever issued (0 before the first insert). */
  datatype Table = Table(rows: seq<Row>, lastId: nat)

  /** What saveSong is asked to store. */
  datatype Candidate = Candidate(artist: string, title: string)

  /** The table as CREATE TABLE leaves it. */
  const Empty: Table := Table([], 0)

  predicate IdsIncreasing(rows: seq<Row>) {
    forall i, j :: 0 <= i < j < |rows| ==> rows[i].id < rows[j].id
  }

  /** Rows only ever come from inserts: ids are positive, increase in
      insertion order and never exceed the counter. */
  predicate WellFormed(t: Table) {
    IdsIncreasing(t.rows) &&
    forall i :: 0 <= i < |t.rows| ==> 1 <= t.rows[i].id <= t.lastId
  }

  /** `SELECT * FROM songs ORDER BY id DESC LIMIT 1`: the row with the
      greatest id, wherever it sits, or none when the table is empty. */
  function MaxIdRow(rows: seq<Row>): (r: Option<Row>)
    ensures r.None? <==> rows == []
    ensures r.Some? ==> r.value in rows && forall x :: x in rows ==> x.id <= r.value.id
  {
    if rows == [] then None
    else
      match MaxIdRow(rows[1..])
      case None => Some(rows[0])
      case Some(m) => if m.id < rows[0].id then Some(rows[0]) else Some(m)
  }

  function LastTitle(t: Table): Option<string> {
    if t.rows == [] then None else Some(t.rows[|t.rows| - 1].title)
  }

  /** Because ids grow with insertion order, the greatest id is the last row. */
  lemma {:induction false} LatestIsLast(rows: seq<Row>)
    requires rows != [] && IdsIncreasing(rows)
    ensures MaxIdRow(rows) == Some(rows[|rows| - 1])
  {
    if |rows| > 1 {
      var tail := rows[1..];
      assert IdsIncreasing(tail) by {
        forall i, j | 0 <= i < j < |tail| ensures tail[i].id < tail[j].id {
          assert tail[i] == rows[i + 1] && tail[j] == rows[j + 1];
        }
      }
      LatestIsLast(tail);
      assert tail[|tail| - 1] == rows[|rows| - 1];
      assert rows[0].id < rows[|rows| - 1].id;
    }
  }

  /** The guard of saveSong: store the candidate unless the latest row
      carries the same title. The artist plays no part. */
  predicate ShouldAppend(latest: Option<Row>, title: string) {
    latest.None? || latest.value.title != title
  }

  /** `INSERT INTO songs (artist, title, timestamp) VALUES (?, ?, ?)`:
      AUTOINCREMENT gives the new row the next id after every id issued. */
  function AppendRow(t: Table, artist: string, title: string, timestamp: string): (r: Table)
    requires WellFormed(t)
    ensures WellFormed(r) && r.lastId > t.lastId
    ensures |r.rows| == |t.rows| + 1 && r.rows[..|t.rows|] == t.rows
    ensures var added := r.rows[|t.rows|];
      added.artist == artist && added.title == title && added.timestamp == timestamp &&
      (forall x :: x in t.rows ==> x.id < added.id) &&
      MaxIdRow(r.rows) == Some(added)
  {
    var added := Row(t.lastId + 1, artist, title, timestamp);
    var r := Table(t.rows + [added], t.lastId + 1);
    assert r.rows[|t.rows|] == added;
    LatestIsLast(r.rows);
    r
  }

  /** saveSong on a table that is reachable: read the latest row, insert
      when the guard allows it. */
  function SaveStep(t: Table, c: Candidate, timestamp: string): (r: Table)
    requires WellFormed(t)
    ensures WellFormed(r)
  {
    if ShouldAppend(MaxIdRow(t.rows), c.title) then AppendRow(t, c.artist, c.title, timestamp)
    else t
  }

  /** saveSong inserts exactly when the table is empty or its last row has a
      different title; the inserted row is the candidate, stamped, placed
      last, with an id above every existing id. Otherwise nothing changes. */
  lemma SaveAppendsExactlyWhen(t: Table, c: Candidate, timestamp: string)
    requires WellFormed(t)
    ensures var r := SaveStep(t, c, timestamp);
      if LastTitle(t) != Some(c.title) then
        |r.rows| == |t.rows| + 1 && r.rows[..|t.rows|] == t.rows &&
        r.rows[|t.rows|].artist == c.artist && r.rows[|t.rows|].title == c.title &&
        r.rows[|t.rows|].timestamp == timestamp &&
        (forall x :: x in t.rows ==> x.id < r.rows[|t.rows|].id) &&
        LastTitle(r) == Some(c.title)
      else
        r == t
  {
    if t.rows != [] {
      LatestIsLast(t.rows);
    }
  }

  /** The dedup key is the title alone: a second candidate with the title of
      the first is dropped whatever its artist, so the table stays as the
      first call left it. */
  lemma RepeatedTitleIsDropped(t: Table, c1: Candidate, c2: Candidate, ts1: string, ts2: string)
    requires WellFormed(t) && c1.title == c2.title
    ensures SaveStep(SaveStep(t, c1, ts1), c2, ts2) == SaveStep(t, c1, ts1)
  {
    SaveAppendsExactlyWhen(t, c1, ts1);
    var t1 := SaveStep(t, c1, ts1);
    SaveAppendsExactlyWhen(t1, c2, ts2);
  }

  /** saveSong is append-only: existing rows stay as they are and in place,
      at most one row is added, and the id counter never goes back. */
  lemma SaveIsAppendOnly(t: Table, c: Candidate, timestamp: string)
    requires WellFormed(t)
    ensures var r := SaveStep(t, c, timestamp);
      |t.rows| <= |r.rows| <= |t.rows| + 1 && r.rows[..|t.rows|] == t.rows && t.lastId <= r.lastId
  {
  }

  /** No two rows share an id. */
  lemma IdsUnique(t: Table)
    requires WellFormed(t)
    ensures forall i, j :: 0 <= i < |t.rows| && 0 <= j < |t.rows| && i != j ==> t.rows[i].id != t.rows[j].id
  {
  }
}
