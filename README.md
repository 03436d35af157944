# Song poller: dedup-and-persist over an append-only table

App.js is a React Native screen. A timer polls a remote JSON endpoint.
It keeps `name` as the artist and `gender` as the title. It stores that
pair in the SQLite table `songs` of songs.db, unless the most recently
stored row already has the same title. After each insert, the on-screen
list is reloaded from the whole table.

This project models that rule and the table it writes:

- `songs.dfy` (module `Songs`): a row, the table as a value (its rows
  plus AUTOINCREMENT's largest issued id), the latest-row query, the
  insert and the dedup rule of `saveSong`, with lemmas on ids, append-only
  growth and the title-only dedup key.
- `polling.dfy` (module `Polling`): the response-to-candidate mapping of
  `fetchCurrentSong`, a run of timer ticks, and the theorem that a run
  stores the received titles with consecutive repeats collapsed. `Collapse`
  is an independent reference definition for that.
- `song_app.dfy` (module `SongApp`): the imperative layer.
  `SongDatabase` is the module-level handle `db` together with the file
  behind it. Its methods are the four SQL statements. `App` holds the
  `songs` view state and has `saveSong`, `loadSongs`, `fetchCurrentSong`
  and the timer's sequence of ticks. Each method is proved against the
  value-level functions of the first two modules.

A database call throws when `db` was never assigned (the open failed) or
when the table was never created. `saveSong` and `loadSongs` catch that,
and then nothing changes. The model returns a `Result` for these cases.

As written, the dedup key is the title alone. A song with a new artist
and the title of the latest row is dropped (`RepeatedTitleIsDropped`).
The model keeps this behaviour.

## Model

| member | source | states |
|---|---|---|
| Songs.MaxIdRow | App.js:60-62 | The latest-row query returns nothing exactly when the table is empty; otherwise it returns a stored row whose id is at least every stored id |
| Songs.LatestIsLast | App.js:14 | Because AUTOINCREMENT ids grow in insertion order, the row with the greatest id is the last row inserted |
| Songs.AppendRow | App.js:64-67 | An insert keeps ids increasing and within the counter. It adds exactly one row, at the end, with the given artist, title and timestamp. Its id is above every existing id, the row becomes the latest, and the counter grows |
| Songs.SaveStep | App.js:58-73 | saveSong on a reachable table keeps ids increasing and within the counter |
| Songs.SaveAppendsExactlyWhen | App.js:60-67 | saveSong inserts exactly when the table is empty or its last title differs from the candidate's. The new row is the candidate with the timestamp, placed last, with a fresh larger id. Otherwise the table is unchanged |
| Songs.RepeatedTitleIsDropped | App.js:63 | A second candidate with the same title as the first is dropped whatever its artist; the table stays as the first call left it |
| Songs.SaveIsAppendOnly | App.js:63-67 | saveSong adds at most one row, keeps every existing row in place, and never lowers the id counter |
| Songs.IdsUnique | App.js:14 | No two rows of the table share an id |
| Polling.TickStep | App.js:44-56 | One tick on a reachable table keeps ids increasing and within the counter |
| Polling.TickStoresNameAndGender | App.js:44-56 | A tick stores artist := name and title := gender, stamped with the tick's time. It stores nothing when the latest title repeats or when the fetch failed |
| Polling.Run | App.js:32 | A run of ticks keeps ids increasing and within the counter |
| Polling.RunStoresCollapsedTitles | App.js:44-73 | A run of ticks appends to the stored titles exactly the received titles with consecutive repeats dropped, counting the last stored title as the predecessor of the first; failed fetches add nothing |
| Polling.RunFromEmptyCollapses | App.js:44-73 | From an empty table the stored titles are the collapse of the received titles |
| Polling.RunIsAppendOnly | App.js:63-67 | A run of ticks keeps all existing rows in place, adds at most one row per tick, and never lowers the counter |
| Polling.ScenarioXYThenXZ | App.js:58-73 | From an empty table, X/Y stores one row, X/Y again stores nothing, and X/Z stores a second row titled Z |
| Polling.CollapseExample | App.js:58-73 | Received genders a, a, b, b, b, a store the titles a, b, a, whatever the names and however many fetches fail between them |
| SongApp.SongDatabase.constructor | App.js:6 | At start-up the handle is unassigned and the file holds either no table or a well-formed table from an earlier run |
| SongApp.SongDatabase.Initialize | App.js:8-24 | Opening assigns the handle. CREATE TABLE IF NOT EXISTS creates the table only when it is absent. Existing rows and the id counter are never touched, and failures change nothing else |
| SongApp.SongDatabase.Latest | App.js:60-62 | Fails with NoHandle or NoSuchTable when the store is unreachable; otherwise returns the greatest-id row, computed as the last row |
| SongApp.SongDatabase.Insert | App.js:64-67 | Succeeds exactly when the store is reachable. The new table is the insert of the row, and the returned row is the last one |
| SongApp.SongDatabase.ListAll | App.js:77 | Succeeds exactly when the store is reachable and then returns every row in insertion order; otherwise names the failure |
| SongApp.App.constructor | App.js:27 | The shown list starts empty |
| SongApp.App.LoadSongs | App.js:75-82 | The shown list becomes the whole table, or stays as it was when the query fails |
| SongApp.App.SaveSong | App.js:58-73 | The table becomes the saveSong step of the old table, or stays the same when unreachable. The list becomes the whole table exactly when a row was added and is otherwise untouched |
| SongApp.App.FetchCurrentSong | App.js:44-56 | The table becomes the tick step of the old table: a failed fetch never reaches saveSong. The list follows the table as in SaveSong |
| SongApp.App.RunTicks | App.js:32 | After the ticks the table is the run of all of them from the old table. After any insert the list shows the whole table |

## Left out

- The React component's rendering, `FlatList`, `StyleSheet` and `ToastAndroid` (App.js:84-117) are presentation only.
- The `NetInfo.fetch()` connectivity check (App.js:36-42) only shows a notice and never touches the table.
- The HTTP request and JSON parsing (App.js:46-47) are library I/O. A tick receives either the two fields or a failure.
- A response whose `name` or `gender` is absent or not a string is not modelled. Both fields are taken to be strings.
- The SQLite engine, `PRAGMA journal_mode = WAL` and durability (App.js:10-12) are replaced by the in-memory table.
- A query that fails part-way through `saveSong` (the read succeeds, then the insert fails) is not modelled. A query fails only when the handle is unassigned or the table is missing.
- The timer period, `clearInterval` on unmount, and overlapping ticks (App.js:32-33) are left out. Ticks run one after another and each `saveSong` is atomic. So the duplicate-insert race of two overlapping ticks is not captured.
- `initializeDatabase` is not awaited before the timer starts (App.js:30-32). The model does not order the first tick against it. Any tick before it completes sees an unreachable store.
- The clock `new Date().toISOString()` (App.js:66) is a string parameter of each tick. Logging (`console.log`, `console.error`) is ignored.
