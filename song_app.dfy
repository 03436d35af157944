/** The stateful part of App.js: the module-level database handle over
    songs.db, and the screen whose `songs` state lists the table. */
module SongApp {
  import opened Songs
  import opened Polling

  /** Why a database call throws. */
  datatype DbError =
    | NoHandle     // `db` was never assigned, so `db.getAllAsync` is a TypeError
    | NoSuchTable  // the handle is open but CREATE TABLE never succeeded

  datatype Result<T> = Success(value: T) | Failure(error: DbError)

  /** The handle `db` together with the songs.db file behind it. */
  class SongDatabase {
    var open: bool       // openDatabaseAsync has succeeded and assigned `db`
    var hasTable: bool   // songs.db holds the `songs` table
    var rows: seq<Row>
    var lastId: nat      // AUTOINCREMENT's record of the largest id issued

    ghost predicate Valid()
      reads this
    {
      WellFormed(Table(rows, lastId)) && (!hasTable ==> rows == [] && lastId == 0)
    }

    function Contents(): Table
      reads this
    {
      Table(rows, lastId)
    }

    /** Queries succeed only through an open handle on an existing table. */
    predicate Ready()
      reads this
    {
      open && hasTable
    }

    /** At start-up `db` is unassigned; songs.db holds what an earlier run
        left in it: no table, or a songs table. */
    constructor (stored: Option<Table>)
      requires stored.Some? ==> WellFormed(stored.value)
      ensures Valid() && !open && hasTable == stored.Some?
      ensures Contents() == if stored.Some? then stored.value else Empty
    {
      open := false;
      hasTable := stored.Some?;
      rows := if stored.Some? then stored.value.rows else [];
      lastId := if stored.Some? then stored.value.lastId else 0;
    }

    /** initializeDatabase: open songs.db, then CREATE TABLE IF NOT EXISTS.
        A failure of either step is caught and logged. A table that already
        exists keeps all its rows and its id counter. */
    method Initialize(openOk: bool, schemaOk: bool)
      requires Valid()
      modifies this
      ensures Valid()
      ensures open == (old(open) || openOk)
      ensures hasTable == (old(hasTable) || (openOk && schemaOk))
      ensures Contents() == old(Contents())
    {
      if openOk {
        open := true;
        if schemaOk && !hasTable {
          hasTable := true;
        }
      }
    }

    /** `SELECT * FROM songs ORDER BY id DESC LIMIT 1`. */
    method Latest() returns (r: Result<Option<Row>>)
      requires Valid()
      ensures !open ==> r == Failure(NoHandle)
      ensures open && !hasTable ==> r == Failure(NoSuchTable)
      ensures Ready() ==> r == Success(MaxIdRow(rows))
    {
      if !open {
        r := Failure(NoHandle);
      } else if !hasTable {
        r := Failure(NoSuchTable);
      } else if rows == [] {
        r := Success(None);
      } else {
        LatestIsLast(rows);
        r := Success(Some(rows[|rows| - 1]));
      }
    }

    /** `INSERT INTO songs (artist, title, timestamp) VALUES (?, ?, ?)`,
        returning the row as stored. */
    method Insert(artist: string, title: string, timestamp: string) returns (r: Result<Row>)
      requires Valid()
      modifies this
      ensures Valid() && open == old(open) && hasTable == old(hasTable)
      ensures r.Success? <==> old(Ready())
      ensures Contents() == if r.Success? then AppendRow(old(Contents()), artist, title, timestamp) else old(Contents())
      ensures r.Success? ==> rows != [] && r.value == rows[|rows| - 1]
    {
      if !open {
        r := Failure(NoHandle);
      } else if !hasTable {
        r := Failure(NoSuchTable);
      } else {
        var t := AppendRow(Contents(), artist, title, timestamp);
        rows, lastId := t.rows, t.lastId;
        r := Success(rows[|rows| - 1]);
      }
    }

    /** `SELECT * FROM songs`: every row, in insertion order. */
    method ListAll() returns (r: Result<seq<Row>>)
      requires Valid()
      ensures r.Success? <==> Ready()
      ensures r.Success? ==> r.value == rows
      ensures r.Failure? ==> r.error == if open then NoSuchTable else NoHandle
    {
      if !open {
        r := Failure(NoHandle);
      } else if !hasTable {
        r := Failure(NoSuchTable);
      } else {
        r := Success(rows);
      }
    }
  }

  /** The App component: its `songs` state, which the list renders, and
      the callbacks that fill it from `db`. */
  class App {
    const db: SongDatabase
    var songs: seq<Row>

    ghost predicate Valid()
      reads this, db
    {
      db.Valid()
    }

    /** `useState([])`. */
    constructor (db: SongDatabase)
      ensures this.db == db && songs == []
    {
      this.db := db;
      songs := [];
    }

    /** loadSongs: replace the shown list by the whole table; a failing
        query is caught and the list stays as it was. */
    method LoadSongs()
      requires Valid()
      modifies this
      ensures Valid()
      ensures songs == if db.Ready() then db.rows else old(songs)
    {
      var all := db.ListAll();
      if all.Success? {
        songs := all.value;
      }
    }

    /** saveSong: read the latest row and insert the song unless that row
        has the same title; after an insert, reload the list. A failing query
        is caught and nothing changes. */
    method SaveSong(artist: string, title: string, timestamp: string)
      requires Valid()
      modifies this, db
      ensures Valid() && db.open == old(db.open) && db.hasTable == old(db.hasTable)
      ensures db.Contents() ==
        if old(db.Ready()) then SaveStep(old(db.Contents()), Candidate(artist, title), timestamp)
        else old(db.Contents())
      ensures songs == if db.Contents() != old(db.Contents()) then db.rows else old(songs)
    {
      var latest := db.Latest();
      if latest.Success? && ShouldAppend(latest.value, title) {
        var inserted := db.Insert(artist, title, timestamp);
        if inserted.Success? {
          LoadSongs();
        }
      }
    }

    /** fetchCurrentSong: take artist from `name` and title from `gender`
        and save them; a failed fetch is caught before saveSong. */
    method FetchCurrentSong(tick: Tick)
      requires Valid()
      modifies this, db
      ensures Valid() && db.open == old(db.open) && db.hasTable == old(db.hasTable)
      ensures db.Contents() ==
        if old(db.Ready()) then TickStep(old(db.Contents()), tick) else old(db.Contents())
      ensures songs == if db.Contents() != old(db.Contents()) then db.rows else old(songs)
    {
      match tick.fetch
      case FetchFailed =>
      case Received(data) =>
        var artist := data.name;
        var title := data.gender;
        SaveSong(artist, title, tick.now);
    }

    /** The interval timer firing fetchCurrentSong once per tick, each tick
        finishing before the next begins. */
    method RunTicks(ticks: seq<Tick>)
      requires Valid()
      modifies this, db
      ensures Valid() && db.open == old(db.open) && db.hasTable == old(db.hasTable)
      ensures db.Contents() ==
        if old(db.Ready()) then Run(old(db.Contents()), ticks) else old(db.Contents())
      ensures songs == if db.Contents() != old(db.Contents()) then db.rows else old(songs)
    {
      var i := 0;
      while i < |ticks|
        invariant 0 <= i <= |ticks|
        invariant Valid() && db.open == old(db.open) && db.hasTable == old(db.hasTable)
        invariant old(db.Ready()) ==> Run(db.Contents(), ticks[i..]) == Run(old(db.Contents()), ticks)
        invariant !old(db.Ready()) ==> db.Contents() == old(db.Contents())
        invariant |old(db.rows)| <= |db.rows|
        invariant songs == if db.Contents() != old(db.Contents()) then db.rows else old(songs)
      {
        ghost var before := db.Contents();
        if db.Ready() {
          TickStoresNameAndGender(before, ticks[i]);
          assert ticks[i..][0] == ticks[i] && ticks[i..][1..] == ticks[i + 1..];
        }
        FetchCurrentSong(ticks[i]);
        i := i + 1;
      }
      assert ticks[i..] == [];
    }
  }
}
