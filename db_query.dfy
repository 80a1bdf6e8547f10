/**
 * The queries of `tinic_database::query` over the game table. The SQLite
 * engine is reduced to what the queries rely on: the table is a sequence
 * of rows in insertion order, an INSERT places the value bound at position
 * k in column k, and `WHERE column = ?` compares values for equality.
 */
module DbQuery {
  import opened Wrappers
  import opened Ints
  import opened Text
  import opened DbModel

  const I64_MAX: i64 := 0x7FFF_FFFF_FFFF_FFFF
  const BEGIN := "BEGIN TRANSACTION;"
  const COMMIT := "COMMIT;"
  /** SQLite's answer when AUTOINCREMENT has no id left. */
  const FULL := "database or disk is full"

  // ------------------------------------------------------------ the engine

  /** The value bound at a position: the last bind there, or Null when there is none. */
  function ValueAt(binds: seq<(nat, SqlValue)>, pos: nat): SqlValue
    decreases |binds|
  {
    if binds == [] then Null
    else if binds[|binds| - 1].0 == pos then binds[|binds| - 1].1
    else ValueAt(binds[..|binds| - 1], pos)
  }

  /** The row an INSERT of all 17 columns stores with the given id and binds. */
  function StoredRow(id: i64, binds: seq<(nat, SqlValue)>): (r: Row)
    ensures |r| == 19 && r[0] == Integer(id) && r[18] == Integer(0)
    ensures forall k :: 1 <= k <= 17 ==> r[k] == ValueAt(binds, k)
  {
    seq(19, k requires 0 <= k < 19 => if k == 0 then Integer(id) else if k == 18 then Integer(0) else ValueAt(binds, k))
  }

  /** Binds made once at each position 1, 2, … in order leave position k holding the k-th value. */
  lemma {:induction false} ValueAtPositions(binds: seq<(nat, SqlValue)>, pos: nat)
    requires forall j :: 0 <= j < |binds| ==> binds[j].0 == j + 1
    ensures ValueAt(binds, pos) == if 1 <= pos <= |binds| then binds[pos - 1].1 else Null
    decreases |binds|
  {
    if binds != [] {
      var init := binds[..|binds| - 1];
      assert forall j :: 0 <= j < |init| ==> init[j] == binds[j];
      ValueAtPositions(init, pos);
    }
  }

  /** The INSERT of `insert_game_infos` stores each field in the column its reader reads. */
  lemma InsertBindsStoreRowOf(id: i64, g: GameInfoInDb)
    ensures StoredRow(id, InsertBinds(g)) == RowOf(id, g)
  {
    var b := InsertBinds(g);
    forall k | 1 <= k <= 17
      ensures ValueAt(b, k) == BoundValue(g, k)
    {
      ValueAtPositions(b, k);
    }
  }

  /** The connection: the game table, the last id handed out, and the plain statements executed. */
  class Db {
    var rows: seq<Row>
    var lastId: i64
    var log: seq<string>

    /** An empty in-memory database. */
    constructor ()
      ensures rows == [] && lastId == 0 && log == []
    {
      rows, lastId, log := [], 0, [];
    }

    /** `Connection::execute` of a statement that leaves the table alone. */
    method Execute(sql: string)
      modifies this
      ensures log == old(log) + [sql] && rows == old(rows) && lastId == old(lastId)
    {
      log := log + [sql];
    }

    /** One step of the prepared INSERT: a row with the next id, or FULL once the ids run out. */
    method Insert(binds: seq<(nat, SqlValue)>) returns (r: Result<Unit>)
      modifies this
      ensures log == old(log)
      ensures old(lastId) == I64_MAX ==> r == Err(FULL) && rows == old(rows) && lastId == old(lastId)
      ensures old(lastId) < I64_MAX ==>
        r == Ok(Unit) && lastId == old(lastId) + 1 && rows == old(rows) + [StoredRow(lastId, binds)]
    {
      if lastId == I64_MAX {
        return Err(FULL);
      }
      lastId := lastId + 1;
      rows := rows + [StoredRow(lastId, binds)];
      r := Ok(Unit);
    }
  }

  // ------------------------------------------------------- insert_game_infos

  /** The table, last id and outcome after inserting `games` in order, stopping at the first failure. */
  function InsertAll(rows: seq<Row>, last: i64, games: seq<GameInfoInDb>): (seq<Row>, i64, Result<Unit>)
    decreases |games|
  {
    if games == [] then (rows, last, Ok(Unit))
    else if last == I64_MAX then (rows, last, Err(FULL))
    else InsertAll(rows + [RowOf(last + 1, games[0])], last + 1, games[1..])
  }

  /**
   * `insert_game_infos`: nothing at all for an empty list; otherwise a
   * transaction, one INSERT per game, and a commit when every insert
   * succeeded.
   */
  method InsertGameInfos(db: Db, games: seq<GameInfoInDb>) returns (r: Result<Unit>)
    modifies db
    ensures games == [] ==> (r == Ok(Unit) && db.rows == old(db.rows) && db.lastId == old(db.lastId)
      && db.log == old(db.log))
    ensures games != [] ==> var (rows, last, res) := InsertAll(old(db.rows), old(db.lastId), games);
      db.rows == rows && db.lastId == last && r == res
      && db.log == old(db.log) + [BEGIN] + (if res.Ok? then [COMMIT] else [])
  {
    if games == [] {
      return Ok(Unit);
    }
    ghost var goal := InsertAll(db.rows, db.lastId, games);
    ghost var log0 := db.log + [BEGIN];
    db.Execute(BEGIN);
    for i := 0 to |games|
      invariant db.log == log0
      invariant InsertAll(db.rows, db.lastId, games[i..]) == goal
    {
      assert games[i..][0] == games[i] && games[i..][1..] == games[i + 1..];
      if db.lastId < I64_MAX {
        InsertBindsStoreRowOf(db.lastId + 1, games[i]);
      }
      var res := db.Insert(InsertBinds(games[i]));
      if res.Err? {
        return res;
      }
    }
    assert games[|games|..] == [];
    db.Execute(COMMIT);
    r := Ok(Unit);
  }

  /** The stored rows read back as exactly the games, in order, with each crc in the crc column. */
  ghost predicate Stores(rows: seq<Row>, games: seq<GameInfoInDb>)
  {
    |rows| == |games|
    && forall k :: 0 <= k < |rows| ==> (|rows[k]| == 19 && ReadGameInfo(rows[k]) == Ok(games[k])
                                    && rows[k][COL_CRC32] == OptU32(games[k].crc32))
  }

  /** The rows inserting `games` adds after id `last`. */
  function NewRows(last: i64, games: seq<GameInfoInDb>): seq<Row>
    requires last as int + |games| <= I64_MAX as int
  {
    seq(|games|, k requires 0 <= k < |games| => RowOf(last + k + 1, games[k]))
  }

  /** With ids to spare, every game is inserted after the existing rows, with the next ids in order. */
  lemma {:induction false} InsertAllRows(rows: seq<Row>, last: i64, games: seq<GameInfoInDb>)
    requires last as int + |games| <= I64_MAX as int
    ensures InsertAll(rows, last, games) == (rows + NewRows(last, games), last as int + |games|, Ok(Unit))
    decreases |games|
  {
    if games == [] {
      assert rows + NewRows(last, games) == rows;
    } else {
      var x := RowOf(last + 1, games[0]);
      InsertAllRows(rows + [x], last + 1, games[1..]);
      assert [x] + NewRows(last + 1, games[1..]) == NewRows(last, games);
      assert rows + [x] + NewRows(last + 1, games[1..]) == rows + NewRows(last, games);
    }
  }

  /** The inserted rows read back as exactly the games. */
  lemma NewRowsStore(last: i64, games: seq<GameInfoInDb>)
    requires last as int + |games| <= I64_MAX as int
    ensures Stores(NewRows(last, games), games)
  {
    var rows := NewRows(last, games);
    forall k | 0 <= k < |rows|
      ensures |rows[k]| == 19 && ReadGameInfo(rows[k]) == Ok(games[k]) && rows[k][COL_CRC32] == OptU32(games[k].crc32)
    {
      ReadStoredGame(last + k + 1, games[k]);
      RowOfColumns(last + k + 1, games[k]);
    }
  }

  /** With ids to spare, the insert succeeds and the table ends with rows that read back as the games. */
  lemma InsertAllStores(rows: seq<Row>, last: i64, games: seq<GameInfoInDb>)
    requires last as int + |games| <= I64_MAX as int
    ensures var (rows', last', res) := InsertAll(rows, last, games);
      res.Ok? && last' == last as int + |games| && |rows'| == |rows| + |games|
      && rows'[..|rows|] == rows && Stores(rows'[|rows|..], games)
  {
    InsertAllRows(rows, last, games);
    NewRowsStore(last, games);
    var rows' := rows + NewRows(last, games);
    assert rows'[..|rows|] == rows && rows'[|rows|..] == NewRows(last, games);
  }

  // ---------------------------------------------------- select_by_crc32_list

  /** The "?,?,…" text: `n` question marks joined with commas. */
  function Placeholders(n: nat): string
  {
    Join(seq(n, _ => "?"), ",")
  }

  /** For n ≥ 1 the placeholder text alternates '?' and ',': n marks and n − 1 commas. */
  lemma {:induction false} PlaceholdersShape(n: nat)
    requires n >= 1
    ensures |Placeholders(n)| == 2 * n - 1
    ensures forall k :: 0 <= k < 2 * n - 1 ==> Placeholders(n)[k] == if k % 2 == 0 then '?' else ','
  {
    var parts := seq(n, _ => "?");
    if n > 1 {
      PlaceholdersShape(n - 1);
      assert parts[1..] == seq(n - 1, _ => "?");
      assert Placeholders(n) == "?" + "," + Placeholders(n - 1);
    }
  }

  /** The SQL text `select_by_crc32_list` prepares for a non-empty list. */
  function SelectSql(n: nat): string
  {
    "SELECT * FROM game_info WHERE crc32 IN (" + Placeholders(n) + ")"
  }

  /** The binds of the crc list: the i-th crc, as an integer, at position i + 1. */
  function CrcBinds(crcs: seq<u32>): (r: seq<(nat, SqlValue)>)
    ensures |r| == |crcs|
    ensures forall i :: 0 <= i < |crcs| ==> r[i] == (i + 1, Integer(crcs[i]))
  {
    seq(|crcs|, i requires 0 <= i < |crcs| => (i + 1, Integer(crcs[i] as i64)))
  }

  /** `crc32 IN (?, …)`: the row's crc column equals one of the bound values. */
  predicate InList(row: Row, binds: seq<(nat, SqlValue)>)
  {
    COL_CRC32 < |row| && exists k :: 0 <= k < |binds| && row[COL_CRC32] == binds[k].1
  }

  /** The read rows put in front of the rest of the outcome. */
  function Prepend(done: seq<GameInfoInDb>, rest: Result<seq<GameInfoInDb>>): Result<seq<GameInfoInDb>>
  {
    match rest
    case Ok(gs) => Ok(done + gs)
    case Err(m) => Err(m)
  }

  /** Reading more rows in front joins onto what was read before. */
  lemma PrependJoin(a: seq<GameInfoInDb>, b: seq<GameInfoInDb>, rest: Result<seq<GameInfoInDb>>)
    ensures Prepend([], rest) == rest
    ensures Prepend(a + b, rest) == Prepend(a, Prepend(b, rest))
  {
    if rest.Ok? {
      assert [] + rest.value == rest.value;
      assert a + b + rest.value == a + (b + rest.value);
    }
  }

  /** The rows in the list, read in table order; the first row that does not read is the error. */
  function SelectRows(rows: seq<Row>, binds: seq<(nat, SqlValue)>): Result<seq<GameInfoInDb>>
    decreases |rows|
  {
    if rows == [] then Ok([])
    else if InList(rows[0], binds) then
      match ReadGameInfo(rows[0])
      case Err(m) => Err(m)
      case Ok(g) => Prepend([g], SelectRows(rows[1..], binds))
    else SelectRows(rows[1..], binds)
  }

  /**
   * `select_by_crc32_list`: empty for an empty list, with nothing
   * prepared; otherwise the SQL text, the binds, and the rows read. The
   * text and binds are returned so that their shape can be stated.
   */
  method SelectByCrc32List(db: Db, crcs: seq<u32>)
    returns (r: Result<seq<GameInfoInDb>>, sql: string, binds: seq<(nat, SqlValue)>)
    ensures crcs == [] ==> r == Ok([]) && sql == "" && binds == []
    ensures crcs != [] ==> sql == SelectSql(|crcs|) && binds == CrcBinds(crcs) && r == SelectRows(db.rows, binds)
  {
    if crcs == [] {
      return Ok([]), "", [];
    }
    var placeholders := Placeholders(|crcs|);
    sql := "SELECT * FROM game_info WHERE crc32 IN (" + placeholders + ")";
    binds := [];
    for i := 0 to |crcs|
      invariant binds == CrcBinds(crcs[..i])
    {
      binds := binds + [(i + 1, Integer(crcs[i] as i64))];
    }
    assert crcs[..|crcs|] == crcs;
    var rows := db.rows;
    var results: seq<GameInfoInDb> := [];
    var i := 0;
    assert rows[i..] == rows;
    PrependJoin([], [], SelectRows(rows, binds));
    while i < |rows|
      invariant 0 <= i <= |rows|
      invariant SelectRows(rows, binds) == Prepend(results, SelectRows(rows[i..], binds))
    {
      assert rows[i..][0] == rows[i] && rows[i..][1..] == rows[i + 1..];
      if InList(rows[i], binds) {
        var g := ReadGameInfo(rows[i]);
        if g.Err? {
          return Err(g.msg), sql, binds;
        }
        PrependJoin(results, [g.value], SelectRows(rows[i + 1..], binds));
        results := results + [g.value];
      }
      i := i + 1;
    }
    assert rows[i..] == [];
    assert results + [] == results;
    r := Ok(results);
  }

  /** The games whose crc is one of the list's, in order. */
  function WithCrcIn(games: seq<GameInfoInDb>, crcs: seq<u32>): (r: seq<GameInfoInDb>)
    decreases |games|
  {
    if games == [] then []
    else (if games[0].crc32.Some? && games[0].crc32.value in crcs then [games[0]] else [])
         + WithCrcIn(games[1..], crcs)
  }

  /** `WithCrcIn` keeps exactly the games with a listed crc. */
  lemma {:induction false} WithCrcInMembers(games: seq<GameInfoInDb>, crcs: seq<u32>, g: GameInfoInDb)
    ensures g in WithCrcIn(games, crcs) <==> g in games && g.crc32.Some? && g.crc32.value in crcs
    decreases |games|
  {
    if games != [] {
      WithCrcInMembers(games[1..], crcs, g);
      assert games == [games[0]] + games[1..];
    }
  }

  /** A stored game is in the list exactly when its crc is one of the listed crcs. */
  lemma InListIff(row: Row, g: GameInfoInDb, crcs: seq<u32>)
    requires |row| == 19 && row[COL_CRC32] == OptU32(g.crc32)
    ensures InList(row, CrcBinds(crcs)) <==> g.crc32.Some? && g.crc32.value in crcs
  {
    var b := CrcBinds(crcs);
    if g.crc32.Some? && g.crc32.value in crcs {
      var k :| 0 <= k < |crcs| && crcs[k] == g.crc32.value;
      assert row[COL_CRC32] == b[k].1;
    }
  }

  /** Over a table of stored games, the query returns exactly the games whose crc is listed, in table order. */
  lemma {:induction false} SelectStoredGames(rows: seq<Row>, games: seq<GameInfoInDb>, crcs: seq<u32>)
    requires Stores(rows, games)
    ensures SelectRows(rows, CrcBinds(crcs)) == Ok(WithCrcIn(games, crcs))
    decreases |rows|
  {
    if rows != [] {
      StoresTail(rows, games);
      SelectStoredGames(rows[1..], games[1..], crcs);
      InListIff(rows[0], games[0], crcs);
      var rest := WithCrcIn(games[1..], crcs);
      if games[0].crc32.Some? && games[0].crc32.value in crcs {
        assert ReadGameInfo(rows[0]) == Ok(games[0]);
        assert SelectRows(rows, CrcBinds(crcs)) == Prepend([games[0]], Ok(rest));
        assert WithCrcIn(games, crcs) == [games[0]] + rest;
      } else {
        assert !InList(rows[0], CrcBinds(crcs));
        assert SelectRows(rows, CrcBinds(crcs)) == SelectRows(rows[1..], CrcBinds(crcs));
        assert WithCrcIn(games, crcs) == [] + rest == rest;
      }
    }
  }

  lemma StoresTail(rows: seq<Row>, games: seq<GameInfoInDb>)
    requires Stores(rows, games) && rows != []
    ensures Stores(rows[1..], games[1..])
  {
    forall k | 0 <= k < |rows| - 1
      ensures rows[1..][k] == rows[k + 1] && games[1..][k] == games[k + 1]
    {
    }
  }

  // ------------------------------------- list_games_with_rom_path_paginated

  /**
   * The offset as written: `page.saturating_sub(1) * page_size` is a `u32`
   * product, which wraps past `u32::MAX` in a release build.
   */
  function PageOffset(page: u32, pageSize: u32): u32
  {
    WrapU32((if page == 0 then 0 else page - 1) * pageSize)
  }

  /** The intended offset: the pages before this one, counted exactly. */
  function PageOffsetExact(page: u32, pageSize: u32): nat
  {
    (if page == 0 then 0 else page - 1) * pageSize
  }

  /** The rows of a page: LIMIT `limit` OFFSET `offset` over the engine's ordered result. */
  function Page<T>(ordered: seq<T>, offset: nat, limit: nat): (r: seq<T>)
    ensures |r| <= limit
  {
    var lo := if offset < |ordered| then offset else |ordered|;
    var hi := if offset + limit < |ordered| then offset + limit else |ordered|;
    ordered[lo..hi]
  }

  /** Pages 0 and 1 are the same page, the first one. */
  lemma FirstPageTwice(pageSize: u32)
    ensures PageOffset(0, pageSize) == PageOffset(1, pageSize) == 0
    ensures PageOffsetExact(0, pageSize) == PageOffsetExact(1, pageSize) == 0
  {
  }

  /** With the exact offset, each page starts where the previous one ended, so the pages cover the result in order. */
  lemma PagesTile<T>(ordered: seq<T>, page: u32, pageSize: u32)
    requires 1 <= page < 0xFFFF_FFFF
    ensures PageOffsetExact(page + 1, pageSize) == PageOffsetExact(page, pageSize) + pageSize
    ensures var o := PageOffsetExact(page, pageSize);
      Page(ordered, o, pageSize) + Page(ordered, o + pageSize, pageSize) == Page(ordered, o, 2 * pageSize)
  {
    var o := PageOffsetExact(page, pageSize);
    assert (page + 1 - 1) * pageSize == (page - 1) * pageSize + pageSize;
    var n := |ordered|;
    var lo := if o < n then o else n;
    var mid := if o + pageSize < n then o + pageSize else n;
    var hi := if o + 2 * pageSize < n then o + 2 * pageSize else n;
    assert ordered[lo..mid] + ordered[mid..hi] == ordered[lo..hi];
  }

  /** The written offset is the exact one while the product fits a `u32`. */
  lemma OffsetExactWhileSmall(page: u32, pageSize: u32)
    requires PageOffsetExact(page, pageSize) < 0x1_0000_0000
    ensures PageOffset(page, pageSize) == PageOffsetExact(page, pageSize)
  {
  }

  /** Past that, the written offset wraps: page 65537 of 65536 rows each is read from offset 0, as the first page. */
  lemma OffsetWraps()
    ensures PageOffsetExact(65537, 65536) == 0x1_0000_0000
    ensures PageOffset(65537, 65536) == 0 == PageOffset(1, 65536)
  {
  }

  /**
   * `list_games_with_rom_path_paginated`: `ordered` is what the engine
   * yields for the pagination query before LIMIT and OFFSET (rows with a
   * rom path, most recently played first); the loop collects the rows of
   * the page.
   */
  method ListGamesWithRomPathPaginated<T>(ordered: seq<T>, page: u32, pageSize: u32) returns (games: seq<T>)
    ensures games == Page(ordered, PageOffset(page, pageSize), pageSize)
  {
    var offset: nat := WrapU32((if page == 0 then 0 else page - 1) * pageSize);
    var limit: nat := pageSize;
    games := [];
    var i := offset;
    while i < |ordered| && i < offset + limit
      invariant offset <= i
      invariant i <= |ordered| || i == offset
      invariant i <= offset + limit
      invariant games == ordered[(if offset < |ordered| then offset else |ordered|)..(if i < |ordered| then i else |ordered|)]
    {
      games := games + [ordered[i]];
      i := i + 1;
    }
  }

  // ------------------------------------------------------- update_game_paths

  /** `WHERE column = ?`: a full row whose column equals the key. */
  predicate Matches(row: Row, col: nat, key: SqlValue)
  {
    |row| == 19 && col < 19 && row[col] == key
  }

  /** The UPDATE's SET: the rom path and the core path of a row. */
  function SetPaths(row: Row, romPath: Option<string>, corePath: Option<string>): Row
    requires |row| == 19
  {
    row[COL_ROM_PATH := OptStr(romPath)][COL_CORE_PATH := OptStr(corePath)]
  }

  /** The table after `UPDATE game_info SET rom_path = ?, core_path = ? WHERE col = ?`. */
  function UpdateWhere(rows: seq<Row>, col: nat, key: SqlValue, romPath: Option<string>, corePath: Option<string>)
    : (r: seq<Row>)
    decreases |rows|
  {
    if rows == [] then []
    else [if Matches(rows[0], col, key) then SetPaths(rows[0], romPath, corePath) else rows[0]]
         + UpdateWhere(rows[1..], col, key, romPath, corePath)
  }

  /** The UPDATE sets the paths of exactly the matching rows and leaves every other row as it was. */
  lemma {:induction false} UpdateWhereRows(rows: seq<Row>, col: nat, key: SqlValue, romPath: Option<string>,
                                           corePath: Option<string>)
    ensures var r := UpdateWhere(rows, col, key, romPath, corePath);
      |r| == |rows| && forall k :: 0 <= k < |rows| ==>
        r[k] == if Matches(rows[k], col, key) then SetPaths(rows[k], romPath, corePath) else rows[k]
    decreases |rows|
  {
    if rows != [] {
      UpdateWhereRows(rows[1..], col, key, romPath, corePath);
      var r := UpdateWhere(rows, col, key, romPath, corePath);
      assert forall k :: 1 <= k < |rows| ==> rows[k] == rows[1..][k - 1] && r[k] == r[1..][k - 1];
    }
  }

  /** `change_count()` after that UPDATE: the rows it matched. */
  function MatchCount(rows: seq<Row>, col: nat, key: SqlValue): nat
    decreases |rows|
  {
    if rows == [] then 0
    else (if Matches(rows[0], col, key) then 1 else 0) + MatchCount(rows[1..], col, key)
  }

  /** An UPDATE that matches no row leaves the table as it was. */
  lemma {:induction false} NoMatchNoChange(rows: seq<Row>, col: nat, key: SqlValue, romPath: Option<string>,
                                           corePath: Option<string>)
    requires MatchCount(rows, col, key) == 0
    ensures UpdateWhere(rows, col, key, romPath, corePath) == rows
    decreases |rows|
  {
    if rows != [] {
      NoMatchNoChange(rows[1..], col, key, romPath, corePath);
    }
  }

  /** The count is zero exactly when no row matches. */
  lemma {:induction false} MatchCountZero(rows: seq<Row>, col: nat, key: SqlValue)
    ensures MatchCount(rows, col, key) == 0 <==> forall k :: 0 <= k < |rows| ==> !Matches(rows[k], col, key)
    decreases |rows|
  {
    if rows != [] {
      MatchCountZero(rows[1..], col, key);
      assert forall k :: 1 <= k < |rows| ==> rows[k] == rows[1..][k - 1];
    }
  }

  /** One row of the UPDATE keeps the loop's account of the rows done and the rows still to do. */
  lemma UpdateStep(rows: seq<Row>, i: nat, col: nat, key: SqlValue, romPath: Option<string>, corePath: Option<string>,
                   updated: seq<Row>, changed: nat)
    requires i < |rows|
    requires UpdateWhere(rows, col, key, romPath, corePath) == updated + UpdateWhere(rows[i..], col, key, romPath, corePath)
    requires MatchCount(rows, col, key) == changed + MatchCount(rows[i..], col, key)
    ensures var hit := Matches(rows[i], col, key);
      var row := if hit then SetPaths(rows[i], romPath, corePath) else rows[i];
      UpdateWhere(rows, col, key, romPath, corePath) == (updated + [row]) + UpdateWhere(rows[i + 1..], col, key, romPath, corePath)
      && MatchCount(rows, col, key) == changed + (if hit then 1 else 0) + MatchCount(rows[i + 1..], col, key)
  {
    assert rows[i..][0] == rows[i] && rows[i..][1..] == rows[i + 1..];
    var hit := Matches(rows[i], col, key);
    var row := if hit then SetPaths(rows[i], romPath, corePath) else rows[i];
    var tail := UpdateWhere(rows[i + 1..], col, key, romPath, corePath);
    assert UpdateWhere(rows[i..], col, key, romPath, corePath) == [row] + tail;
    assert updated + ([row] + tail) == (updated + [row]) + tail;
  }

  /** One prepared UPDATE of the two paths where `col` equals `key`; the number of rows changed is returned. */
  method UpdateWhereMethod(db: Db, col: nat, key: SqlValue, romPath: Option<string>, corePath: Option<string>)
    returns (changed: nat)
    modifies db
    ensures db.rows == UpdateWhere(old(db.rows), col, key, romPath, corePath) && changed == MatchCount(old(db.rows), col, key)
    ensures db.lastId == old(db.lastId) && db.log == old(db.log)
  {
    var rows := db.rows;
    var updated: seq<Row> := [];
    changed := 0;
    var i := 0;
    assert rows[i..] == rows;
    while i < |rows|
      invariant 0 <= i <= |rows|
      invariant UpdateWhere(rows, col, key, romPath, corePath) == updated + UpdateWhere(rows[i..], col, key, romPath, corePath)
      invariant MatchCount(rows, col, key) == changed + MatchCount(rows[i..], col, key)
      invariant db.lastId == old(db.lastId) && db.log == old(db.log)
    {
      var hit := Matches(rows[i], col, key);
      var row := if hit then SetPaths(rows[i], romPath, corePath) else rows[i];
      UpdateStep(rows, i, col, key, romPath, corePath, updated, changed);
      updated, changed := updated + [row], changed + if hit then 1 else 0;
      i := i + 1;
    }
    assert rows[i..] == [];
    assert UpdateWhere(rows[i..], col, key, romPath, corePath) == [] && updated + [] == updated;
    assert MatchCount(rows[i..], col, key) == 0;
    db.rows := updated;
  }

  /**
   * `update_game_paths`: with a crc, the rows with that crc are updated
   * and, when there are any, their number is the answer; otherwise the rows
   * whose rom name equals `romName` are updated and counted.
   */
  method UpdateGamePaths(db: Db, crc32: Option<u32>, romName: string, romPath: Option<string>,
                         corePath: Option<string>) returns (r: Result<nat>)
    modifies db
    ensures db.lastId == old(db.lastId) && db.log == old(db.log)
    ensures var byCrc := crc32.Some? && MatchCount(old(db.rows), COL_CRC32, OptU32(crc32)) > 0;
      (byCrc ==> (db.rows == UpdateWhere(old(db.rows), COL_CRC32, OptU32(crc32), romPath, corePath)
                  && r == Ok(MatchCount(old(db.rows), COL_CRC32, OptU32(crc32)))))
      && (!byCrc ==> (db.rows == UpdateWhere(old(db.rows), COL_ROM_NAME, Text(romName), romPath, corePath)
                      && r == Ok(MatchCount(old(db.rows), COL_ROM_NAME, Text(romName)))))
  {
    if crc32.Some? {
      var updated := UpdateWhereMethod(db, COL_CRC32, OptU32(Some(crc32.value)), romPath, corePath);
      if updated > 0 {
        return Ok(updated);
      }
      NoMatchNoChange(old(db.rows), COL_CRC32, OptU32(crc32), romPath, corePath);
    }
    var byName := UpdateWhereMethod(db, COL_ROM_NAME, Text(romName), romPath, corePath);
    r := Ok(byName);
  }

  /** An updated stored game reads back with the new paths and every other field as it was. */
  lemma UpdatedGameReadsBack(id: i64, g: GameInfoInDb, romPath: Option<string>, corePath: Option<string>)
    ensures SetPaths(RowOf(id, g), romPath, corePath) == RowOf(id, g.(romPath := romPath, corePath := corePath))
    ensures ReadGameInfo(SetPaths(RowOf(id, g), romPath, corePath)) == Ok(g.(romPath := romPath, corePath := corePath))
  {
    var g' := g.(romPath := romPath, corePath := corePath);
    var a, b := SetPaths(RowOf(id, g), romPath, corePath), RowOf(id, g');
    forall k | 0 <= k < 19
      ensures a[k] == b[k]
    {
      if 1 <= k <= 17 {
        assert b[k] == BoundValue(g', k);
      }
    }
    ReadStoredGame(id, g');
  }

  /** A stored game's rom name is matched by the name fallback exactly when it is that name. */
  lemma RomNameMatches(id: i64, g: GameInfoInDb, romName: string)
    ensures Matches(RowOf(id, g), COL_ROM_NAME, Text(romName)) <==> g.romName == Some(romName)
  {
    RowOfColumns(id, g);
  }
}
