/** One poll of the remote source (fetchCurrentSong) and a run of polls as
    the interval timer fires them, one after another. */
module Polling {
  import opened Songs

  /** The two fields of the polled JSON object that a tick reads. */
  datatype Person = Person(name: string, gender: string)

  /** The outcome of `fetch` followed by `response.json()`. */
  datatype Fetch = Received(person: Person) | FetchFailed

  /** One firing of the timer: what the fetch produced, and the clock
      reading `new Date().toISOString()` would give if a row is inserted. */
  datatype Tick = Tick(fetch: Fetch, now: string)

  /** artist := name, title := gender. */
  function ToCandidate(p: Person): Candidate {
    Candidate(p.name, p.gender)
  }

  /** fetchCurrentSong against a reachable table: a failed fetch is caught
      and never reaches saveSong. */
  function TickStep(t: Table, tick: Tick): (r: Table)
    requires WellFormed(t)
    ensures WellFormed(r)
  {
    match tick.fetch
    case FetchFailed => t
    case Received(p) => SaveStep(t, ToCandidate(p), tick.now)
  }

  /** The ticks in firing order, each completing before the next starts. */
  function Run(t: Table, ticks: seq<Tick>): (r: Table)
    requires WellFormed(t)
    ensures WellFormed(r)
    decreases |ticks|
  {
    if ticks == [] then t else Run(TickStep(t, ticks[0]), ticks[1..])
  }

  function Titles(rows: seq<Row>): (s: seq<string>)
    ensures |s| == |rows| && forall i :: 0 <= i < |rows| ==> s[i] == rows[i].title
  {
    if rows == [] then [] else [rows[0].title] + Titles(rows[1..])
  }

  /** The genders of the ticks whose fetch succeeded, in order. */
  function ReceivedTitles(ticks: seq<Tick>): seq<string> {
    if ticks == [] then []
    else
      match ticks[0].fetch
      case FetchFailed => ReceivedTitles(ticks[1..])
      case Received(p) => [p.gender] + ReceivedTitles(ticks[1..])
  }

  predicate NoAdjacentDuplicates(s: seq<string>) {
    forall i :: 0 <= i < |s| - 1 ==> s[i] != s[i + 1]
  }

  /** Reference definition: a sequence with each run of equal consecutive
      elements collapsed to one element. */
  function Collapse(s: seq<string>): (r: seq<string>)
    ensures |r| <= |s|
    ensures s != [] ==> r != [] && r[0] == s[0] && r[|r| - 1] == s[|s| - 1]
    ensures NoAdjacentDuplicates(r)
  {
    if |s| <= 1 then s
    else if s[0] == s[1] then Collapse(s[1..])
    else [s[0]] + Collapse(s[1..])
  }

  /** s without the elements equal to their predecessor, where prev stands
      for the predecessor of s[0]. */
  function CollapseAfter(prev: Option<string>, s: seq<string>): seq<string>
    decreases |s|
  {
    if s == [] then []
    else (if prev == Some(s[0]) then [] else [s[0]]) + CollapseAfter(Some(s[0]), s[1..])
  }

  lemma {:induction false} CollapseStartsWithHead(s: seq<string>)
    requires s != []
    ensures Collapse(s) == [s[0]] + CollapseAfter(Some(s[0]), s[1..])
  {
    if |s| > 1 {
      CollapseStartsWithHead(s[1..]);
      assert s[1..][0] == s[1] && s[1..][1..] == s[2..];
    }
  }

  /** With nothing before it, CollapseAfter is the collapse itself. */
  lemma CollapseAfterNothing(s: seq<string>)
    ensures CollapseAfter(None, s) == Collapse(s)
  {
    if s != [] {
      CollapseStartsWithHead(s);
    }
  }

  /** A run of ticks appends to the stored titles exactly the received titles
      with consecutive repeats dropped, a title equal to the last stored one
      included; failed ticks contribute nothing and do not break a run. */
  lemma {:induction false} RunStoresCollapsedTitles(t: Table, ticks: seq<Tick>)
    requires WellFormed(t)
    ensures Titles(Run(t, ticks).rows) == Titles(t.rows) + CollapseAfter(LastTitle(t), ReceivedTitles(ticks))
    decreases |ticks|
  {
    if ticks != [] {
      var next := TickStep(t, ticks[0]);
      assert Run(t, ticks) == Run(next, ticks[1..]);
      RunStoresCollapsedTitles(next, ticks[1..]);
      var rest := ReceivedTitles(ticks[1..]);
      match ticks[0].fetch
      case FetchFailed =>
        assert ReceivedTitles(ticks) == rest;
      case Received(p) =>
        assert ReceivedTitles(ticks) == [p.gender] + rest;
        SaveStepTitles(t, ToCandidate(p), ticks[0].now, rest);
    }
  }

  /** One saveSong call followed by the collapse of what comes after it. */
  lemma SaveStepTitles(t: Table, c: Candidate, timestamp: string, rest: seq<string>)
    requires WellFormed(t)
    ensures var next := SaveStep(t, c, timestamp);
      Titles(next.rows) + CollapseAfter(LastTitle(next), rest) ==
      Titles(t.rows) + CollapseAfter(LastTitle(t), [c.title] + rest)
  {
    var next := SaveStep(t, c, timestamp);
    SaveAppendsExactlyWhen(t, c, timestamp);
    if LastTitle(t) == Some(c.title) {
      assert ([c.title] + rest)[0] == c.title && ([c.title] + rest)[1..] == rest;
    } else {
      var added := next.rows[|t.rows|];
      assert next.rows == t.rows + [added] by {
        assert next.rows == next.rows[..|t.rows|] + [added];
      }
      StoredTitleExtends(t.rows, added, LastTitle(t), rest);
    }
  }

  /** Appending a row whose title differs from its predecessor's adds that
      title to the collapse. */
  lemma StoredTitleExtends(rows: seq<Row>, added: Row, prev: Option<string>, rest: seq<string>)
    requires prev != Some(added.title)
    ensures Titles(rows + [added]) + CollapseAfter(Some(added.title), rest) ==
            Titles(rows) + CollapseAfter(prev, [added.title] + rest)
  {
    var g := added.title;
    assert ([g] + rest)[0] == g && ([g] + rest)[1..] == rest;
    assert Titles(rows + [added]) == Titles(rows) + [g];
    assert Titles(rows) + [g] + CollapseAfter(Some(g), rest) == Titles(rows) + ([g] + CollapseAfter(Some(g), rest));
  }

  /** Fed from an empty table, the stored titles are the received titles with
      consecutive duplicates collapsed: [a, a, b, b, b, a] stores [a, b, a]. */
  lemma RunFromEmptyCollapses(ticks: seq<Tick>)
    ensures Titles(Run(Empty, ticks).rows) == Collapse(ReceivedTitles(ticks))
  {
    RunStoresCollapsedTitles(Empty, ticks);
    CollapseAfterNothing(ReceivedTitles(ticks));
  }

  /** A run of ticks keeps every existing row in place and adds at most one
      row per tick. */
  lemma {:induction false} RunIsAppendOnly(t: Table, ticks: seq<Tick>)
    requires WellFormed(t)
    ensures var r := Run(t, ticks);
      |t.rows| <= |r.rows| <= |t.rows| + |ticks| && r.rows[..|t.rows|] == t.rows && t.lastId <= r.lastId
    decreases |ticks|
  {
    if ticks != [] {
      var next := TickStep(t, ticks[0]);
      match ticks[0].fetch {
        case FetchFailed =>
        case Received(p) => SaveIsAppendOnly(t, ToCandidate(p), ticks[0].now);
      }
      RunIsAppendOnly(next, ticks[1..]);
      var r := Run(t, ticks);
      assert r.rows[..|t.rows|] == r.rows[..|next.rows|][..|t.rows|];
    }
  }

  /** A tick stores artist := name and title := gender, or nothing when the
      latest title repeats or the fetch failed. */
  lemma TickStoresNameAndGender(t: Table, tick: Tick)
    requires WellFormed(t)
    ensures var r := TickStep(t, tick);
      match tick.fetch
      case FetchFailed => r == t
      case Received(p) =>
        if LastTitle(t) == Some(p.gender) then r == t
        else |r.rows| == |t.rows| + 1 && r.rows[..|t.rows|] == t.rows &&
             r.rows[|t.rows|].artist == p.name && r.rows[|t.rows|].title == p.gender &&
             r.rows[|t.rows|].timestamp == tick.now
  {
    match tick.fetch
    case FetchFailed =>
    case Received(p) => SaveAppendsExactlyWhen(t, ToCandidate(p), tick.now);
  }

  /** The scenario from an empty table: X/Y stores one row, X/Y again stores
      nothing, X/Z stores a second row titled Z. */
  lemma ScenarioXYThenXZ(ts1: string, ts2: string, ts3: string)
    ensures var r := Run(Empty, [Tick(Received(Person("X", "Y")), ts1),
                                 Tick(Received(Person("X", "Y")), ts2),
                                 Tick(Received(Person("X", "Z")), ts3)]);
      |r.rows| == 2 && r.rows[0].title == "Y" && r.rows[1].title == "Z" &&
      r.rows[0].artist == "X" && r.rows[1].timestamp == ts3
  {
    var ticks := [Tick(Received(Person("X", "Y")), ts1),
                  Tick(Received(Person("X", "Y")), ts2),
                  Tick(Received(Person("X", "Z")), ts3)];
    var t1 := TickStep(Empty, ticks[0]);
    TickStoresNameAndGender(Empty, ticks[0]);
    var t2 := TickStep(t1, ticks[1]);
    TickStoresNameAndGender(t1, ticks[1]);
    var t3 := TickStep(t2, ticks[2]);
    TickStoresNameAndGender(t2, ticks[2]);
    assert ticks[1..][0] == ticks[1] && ticks[1..][1..] == ticks[2..];
    assert ticks[2..][0] == ticks[2] && ticks[2..][1..] == [];
    calc {
      Run(Empty, ticks);
      Run(t1, ticks[1..]);
      Run(t2, ticks[2..]);
      Run(t3, []);
    }
  }

  /** Any run whose successful fetches carry the genders [a, a, b, b, b, a],
      whatever the names and however many fetches fail in between, stores
      the titles [a, b, a]. */
  lemma CollapseExample(ticks: seq<Tick>)
    requires ReceivedTitles(ticks) == ["a", "a", "b", "b", "b", "a"]
    ensures Titles(Run(Empty, ticks).rows) == ["a", "b", "a"]
  {
    RunFromEmptyCollapses(ticks);
    CollapseOfExample();
  }

  lemma CollapseOfExample()
    ensures Collapse(["a", "a", "b", "b", "b", "a"]) == ["a", "b", "a"]
  {
    var s := ["a", "a", "b", "b", "b", "a"];
    assert Collapse(s[5..]) == ["a"];
    assert Collapse(s[4..]) == ["b", "a"] by { assert s[4..][1..] == s[5..]; }
    assert Collapse(s[3..]) == ["b", "a"] by { assert s[3..][1..] == s[4..]; }
    assert Collapse(s[2..]) == ["b", "a"] by { assert s[2..][1..] == s[3..]; }
    assert Collapse(s[1..]) == ["a", "b", "a"] by { assert s[1..][1..] == s[2..]; }
  }
}
