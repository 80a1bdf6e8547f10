/**
 * The game table's row codec (`tinic_database::model` and
 * `tinic_database::sqlite_query_tools`): the record stored per game, the
 * SQL values its optional fields are bound as, and the readers that turn
 * a result row back into a record.
 */
module DbModel {
  import opened Wrappers
  import opened Ints

  /** `sqlite::Value`. */
  datatype SqlValue = Null | Integer(i: i64) | Float(f: real) | Text(s: string) | Binary(b: seq<byte>)

  /** A result row: the value of each column, by index. */
  type Row = seq<SqlValue>

  /** `GameInfoInDb`. */
  datatype GameInfoInDb = GameInfoInDb(
    name: Option<string>,
    description: Option<string>,
    genre: Option<string>,
    developer: Option<string>,
    publisher: Option<string>,
    franchise: Option<string>,
    origin: Option<string>,
    romName: Option<string>,
    releaseYear: Option<u32>,
    releaseMonth: Option<u32>,
    size: Option<u64>,
    crc32: Option<u32>,
    serial: Option<string>,
    corePath: Option<string>,
    romPath: Option<string>,
    rumble: bool,
    consoleName: Option<string>)

  /** `GameInfoInDb::default()`. */
  const DEFAULT_GAME_IN_DB := GameInfoInDb(None, None, None, None, None, None, None, None,
    None, None, None, None, None, None, None, false, None)

  /** Every optional field of the default record is None and rumble is off. */
  lemma DefaultGameInDb()
    ensures var g := DEFAULT_GAME_IN_DB;
      g.name.None? && g.description.None? && g.genre.None? && g.developer.None? && g.publisher.None?
      && g.franchise.None? && g.origin.None? && g.romName.None? && g.releaseYear.None?
      && g.releaseMonth.None? && g.size.None? && g.crc32.None? && g.serial.None? && g.corePath.None?
      && g.romPath.None? && !g.rumble && g.consoleName.None?
  {
  }

  // ------------------------------------------------------------- binding

  /** `opt_str`. */
  function OptStr(v: Option<string>): (r: SqlValue)
    ensures r == Null <==> v.None?
    ensures v.Some? ==> r == Text(v.value)
  {
    match v
    case Some(s) => Text(s)
    case None => Null
  }

  /** `opt_u64`: `n as i64`, so values above `i64::MAX` are stored negative. */
  function OptU64(v: Option<u64>): (r: SqlValue)
    ensures r == Null <==> v.None?
    ensures v.Some? && v.value < 0x8000_0000_0000_0000 ==> r == Integer(v.value)
    ensures v.Some? && v.value >= 0x8000_0000_0000_0000 ==> r == Integer(v.value - 0x1_0000_0000_0000_0000)
  {
    match v
    case Some(n) => Integer(WrapI64(n))
    case None => Null
  }

  /** `opt_u32`: every `u32` fits an `i64`, so the value is stored as it is. */
  function OptU32(v: Option<u32>): (r: SqlValue)
    ensures r == Null <==> v.None?
    ensures v.Some? ==> r == Integer(v.value)
  {
    match v
    case Some(n) => Integer(WrapI64(n))
    case None => Null
  }

  /** `opt_bool`: an integer that is non-zero exactly for true. */
  function OptBool(v: bool): (r: SqlValue)
    ensures r.Integer? && (r.i != 0 <==> v) && 0 <= r.i <= 1
  {
    Integer(if v then 1 else 0)
  }

  // ------------------------------------------------------------- reading

  /**
   * `Statement::read::<Option<String>>`: Null reads as None, text as
   * Some; a missing column or another type is an error.
   */
  function ReadText(row: Row, idx: nat): Result<Option<string>>
  {
    if idx >= |row| then Err("column index out of range")
    else match row[idx]
      case Null => Ok(None)
      case Text(s) => Ok(Some(s))
      case _ => Err("type mismatch")
  }

  /** `Statement::read::<Option<i64>>`, with the same errors. */
  function ReadInt(row: Row, idx: nat): Result<Option<i64>>
  {
    if idx >= |row| then Err("column index out of range")
    else match row[idx]
      case Null => Ok(None)
      case Integer(n) => Ok(Some(n))
      case _ => Err("type mismatch")
  }

  /** `read_opt_string`: a failed read is None like a Null. */
  function ReadOptString(row: Row, idx: nat): (r: Option<string>)
    ensures r.Some? <==> idx < |row| && row[idx].Text?
    ensures r.Some? ==> r.value == row[idx].s
  {
    match ReadText(row, idx)
    case Ok(v) => v
    case Err(_) => None
  }

  /** `read_opt_u32`: an integer column cast with `as u32`, keeping its low 32 bits. */
  function ReadOptU32(row: Row, idx: nat): (r: Option<u32>)
    ensures r.Some? <==> idx < |row| && row[idx].Integer?
    ensures r.Some? ==> r.value == row[idx].i % 0x1_0000_0000
  {
    match ReadInt(row, idx)
    case Ok(Some(v)) => Some(WrapU32(v))
    case _ => None
  }

  /** `read_opt_u64`: an integer column cast with `as u64`, negative values wrapping. */
  function ReadOptU64(row: Row, idx: nat): (r: Option<u64>)
    ensures r.Some? <==> idx < |row| && row[idx].Integer?
    ensures r.Some? && row[idx].i >= 0 ==> r.value == row[idx].i
    ensures r.Some? && row[idx].i < 0 ==> r.value == row[idx].i + 0x1_0000_0000_0000_0000
  {
    match ReadInt(row, idx)
    case Ok(Some(v)) => Some(WrapU64(v))
    case _ => None
  }

  /** Each optional value bound by an `opt_*` is read back unchanged by its reader. */
  lemma OptRoundTrips(s: Option<string>, x: Option<u32>, y: Option<u64>)
    ensures ReadOptString([OptStr(s)], 0) == s
    ensures ReadOptU32([OptU32(x)], 0) == x
    ensures ReadOptU64([OptU64(y)], 0) == y
  {
    if x.Some? {
      U32I64RoundTrip(x.value);
    }
    if y.Some? {
      U64I64RoundTrip(y.value);
    }
  }

  /**
   * `read_game_info` over a `SELECT *` row: column 0 is the id, columns 1
   * to 17 the fields in table order. Only the rumble column must read: a
   * failing read of any other column leaves its field None.
   */
  function ReadGameInfo(row: Row): (r: Result<GameInfoInDb>)
    ensures r.Ok? <==> 17 < |row| && row[17].Integer?
    ensures r.Ok? ==> r.value.rumble == (row[17].i != 0)
  {
    var rumble :- ReadInt(row, 17);
    if rumble.None? then Err("cannot read a null as i64")
    else Ok(GameInfoInDb(
      name := ReadOptString(row, 1),
      description := ReadOptString(row, 2),
      genre := ReadOptString(row, 3),
      developer := ReadOptString(row, 4),
      publisher := ReadOptString(row, 5),
      franchise := ReadOptString(row, 6),
      origin := ReadOptString(row, 7),
      romName := ReadOptString(row, 8),
      serial := ReadOptString(row, 9),
      corePath := ReadOptString(row, 10),
      romPath := ReadOptString(row, 11),
      consoleName := ReadOptString(row, 12),
      releaseYear := ReadOptU32(row, 13),
      releaseMonth := ReadOptU32(row, 14),
      size := ReadOptU64(row, 15),
      crc32 := ReadOptU32(row, 16),
      rumble := rumble.value != 0))
  }

  // ------------------------------------------------------------- storing

  /** The column of `crc32`, `rom_name`, `rom_path` and `core_path` in a stored row. */
  const COL_CRC32: nat := 16
  const COL_ROM_NAME: nat := 8
  const COL_ROM_PATH: nat := 11
  const COL_CORE_PATH: nat := 10

  /**
   * The value `insert_game_infos` binds at a position of its INSERT
   * (positions 1 to 17; any other position is left unbound, which SQLite
   * reads as Null).
   */
  function BoundValue(g: GameInfoInDb, pos: nat): SqlValue
  {
    match pos
    case 1 => OptStr(g.name)
    case 2 => OptStr(g.description)
    case 3 => OptStr(g.genre)
    case 4 => OptStr(g.developer)
    case 5 => OptStr(g.publisher)
    case 6 => OptStr(g.franchise)
    case 7 => OptStr(g.origin)
    case 8 => OptStr(g.romName)
    case 9 => OptStr(g.serial)
    case 10 => OptStr(g.corePath)
    case 11 => OptStr(g.romPath)
    case 12 => OptStr(g.consoleName)
    case 13 => OptU32(g.releaseYear)
    case 14 => OptU32(g.releaseMonth)
    case 15 => OptU64(g.size)
    case 16 => OptU32(g.crc32)
    case 17 => OptBool(g.rumble)
    case _ => Null
  }

  /** The binds of one game in the order the source makes them: (position, value). */
  function InsertBinds(g: GameInfoInDb): (r: seq<(nat, SqlValue)>)
    ensures |r| == 17
    ensures forall k :: 0 <= k < |r| ==> r[k] == (k + 1, BoundValue(g, k + 1))
  {
    seq(17, k requires 0 <= k < 17 => (k + 1, BoundValue(g, k + 1)))
  }

  /**
   * The row the INSERT stores for a game: the id, then in column k the
   * value bound at position k (the insert names the columns in table
   * order), then `last_played_at` at its default 0.
   */
  function RowOf(id: i64, g: GameInfoInDb): (r: Row)
    ensures |r| == 19 && r[0] == Integer(id) && r[18] == Integer(0)
    ensures forall k :: 1 <= k <= 17 ==> r[k] == BoundValue(g, k)
  {
    seq(19, k requires 0 <= k < 19 => if k == 0 then Integer(id) else if k == 18 then Integer(0) else BoundValue(g, k))
  }

  /** A stored game's crc, rom name and paths sit in the columns the queries test. */
  lemma RowOfColumns(id: i64, g: GameInfoInDb)
    ensures |RowOf(id, g)| == 19
    ensures RowOf(id, g)[COL_CRC32] == OptU32(g.crc32)
    ensures RowOf(id, g)[COL_ROM_NAME] == OptStr(g.romName)
    ensures RowOf(id, g)[COL_ROM_PATH] == OptStr(g.romPath)
    ensures RowOf(id, g)[COL_CORE_PATH] == OptStr(g.corePath)
  {
    var r := RowOf(id, g);
    assert r[16] == BoundValue(g, 16) && r[8] == BoundValue(g, 8);
    assert r[11] == BoundValue(g, 11) && r[10] == BoundValue(g, 10);
  }

  /** `read_game_info` reads every field from the column its insert bound it to: a stored game reads back unchanged. */
  lemma ReadStoredGame(id: i64, g: GameInfoInDb)
    ensures ReadGameInfo(RowOf(id, g)) == Ok(g)
  {
    var row := RowOf(id, g);
    assert row[17] == BoundValue(g, 17) == OptBool(g.rumble);
    var r := ReadGameInfo(row).value;
    assert r.name == g.name by { assert row[1] == BoundValue(g, 1); OptRoundTripStr(row, 1, g.name); }
    assert r.description == g.description by { assert row[2] == BoundValue(g, 2); OptRoundTripStr(row, 2, g.description); }
    assert r.genre == g.genre by { assert row[3] == BoundValue(g, 3); OptRoundTripStr(row, 3, g.genre); }
    assert r.developer == g.developer by { assert row[4] == BoundValue(g, 4); OptRoundTripStr(row, 4, g.developer); }
    assert r.publisher == g.publisher by { assert row[5] == BoundValue(g, 5); OptRoundTripStr(row, 5, g.publisher); }
    assert r.franchise == g.franchise by { assert row[6] == BoundValue(g, 6); OptRoundTripStr(row, 6, g.franchise); }
    assert r.origin == g.origin by { assert row[7] == BoundValue(g, 7); OptRoundTripStr(row, 7, g.origin); }
    assert r.romName == g.romName by { assert row[8] == BoundValue(g, 8); OptRoundTripStr(row, 8, g.romName); }
    assert r.serial == g.serial by { assert row[9] == BoundValue(g, 9); OptRoundTripStr(row, 9, g.serial); }
    assert r.corePath == g.corePath by { assert row[10] == BoundValue(g, 10); OptRoundTripStr(row, 10, g.corePath); }
    assert r.romPath == g.romPath by { assert row[11] == BoundValue(g, 11); OptRoundTripStr(row, 11, g.romPath); }
    assert r.consoleName == g.consoleName by { assert row[12] == BoundValue(g, 12); OptRoundTripStr(row, 12, g.consoleName); }
    assert r.releaseYear == g.releaseYear by { assert row[13] == BoundValue(g, 13); OptRoundTrip32(row, 13, g.releaseYear); }
    assert r.releaseMonth == g.releaseMonth by { assert row[14] == BoundValue(g, 14); OptRoundTrip32(row, 14, g.releaseMonth); }
    assert r.size == g.size by { assert row[15] == BoundValue(g, 15); OptRoundTrip64(row, 15, g.size); }
    assert r.crc32 == g.crc32 by { assert row[16] == BoundValue(g, 16); OptRoundTrip32(row, 16, g.crc32); }
    assert r.rumble == g.rumble;
  }

  lemma OptRoundTripStr(row: Row, k: nat, x: Option<string>)
    requires k < |row| && row[k] == OptStr(x)
    ensures ReadOptString(row, k) == x
  {
  }

  lemma OptRoundTrip32(row: Row, k: nat, x: Option<u32>)
    requires k < |row| && row[k] == OptU32(x)
    ensures ReadOptU32(row, k) == x
  {
    if x.Some? {
      U32I64RoundTrip(x.value);
    }
  }

  lemma OptRoundTrip64(row: Row, k: nat, x: Option<u64>)
    requires k < |row| && row[k] == OptU64(x)
    ensures ReadOptU64(row, k) == x
  {
    if x.Some? {
      U64I64RoundTrip(x.value);
    }
  }
}
