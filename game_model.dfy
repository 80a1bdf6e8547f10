/**
 * A game record of a RetroArch RDB file (`rdb_manager::game_model::GameInfo`)
 * and the map visitor that fills it from a MessagePack map.
 */
module GameModel {
  import opened Wrappers
  import opened Ints
  import opened MsgPack
  import Utf8

  datatype GameInfo = GameInfo(
    name: Option<string>,
    description: Option<string>,
    genre: Option<string>,
    developer: Option<string>,
    publisher: Option<string>,
    franchise: Option<string>,
    origin: Option<string>,
    romName: Option<string>,
    releaseYear: Option<u32>,
    releaseMonth: Option<u32>,
    size: Option<u64>,
    crc32: Option<u32>,
    serial: Option<string>,
    rumble: bool,
    rdbName: string)

  /** `GameInfo::default()`. */
  const DEFAULT_GAME := GameInfo(None, None, None, None, None, None, None, None,
    None, None, None, None, None, false, "")

  const TYPE_ERROR := "invalid type"

  // ------------------------------------------------------- value decoding

  /** A `String`: a MessagePack string, or a binary that is valid UTF-8. */
  function StringOf(v: MsgValue): (r: Result<string>)
    ensures v.Str? ==> r == Ok(v.s)
    ensures v.Bin? ==> (r.Ok? <==> Utf8.Decode(v.bytes).Some?)
    ensures !v.Str? && !v.Bin? ==> r.Err?
  {
    match v
    case Str(s) => Ok(s)
    case Bin(b) => if Utf8.Decode(b).Some? then Ok(Utf8.Decode(b).value) else Err(TYPE_ERROR)
    case _ => Err(TYPE_ERROR)
  }

  /** An `Option<String>`: nil is `None`, otherwise a `String`. */
  function OptString(v: MsgValue): (r: Result<Option<string>>)
    ensures v.Nil? ==> r == Ok(None)
    ensures !v.Nil? ==> (r.Ok? <==> StringOf(v).Ok?)
    ensures !v.Nil? && r.Ok? ==> r.value == Some(StringOf(v).value)
  {
    if v.Nil? then Ok(None)
    else
      var s :- StringOf(v);
      Ok(Some(s))
  }

  /** An `Option<u32>`: nil is `None`; an integer must lie in `0..2^32`. */
  function OptU32(v: MsgValue): (r: Result<Option<u32>>)
    ensures r.Ok? <==> v.Nil? || (v.Int? && 0 <= v.n < 0x1_0000_0000)
    ensures r.Ok? && v.Int? ==> r.value == Some(v.n)
    ensures v.Nil? ==> r == Ok(None)
  {
    match v
    case Nil => Ok(None)
    case Int(n) => if 0 <= n < 0x1_0000_0000 then Ok(Some(n)) else Err(TYPE_ERROR)
    case _ => Err(TYPE_ERROR)
  }

  /** An `Option<u64>`: nil is `None`; an integer must lie in `0..2^64`. */
  function OptU64(v: MsgValue): (r: Result<Option<u64>>)
    ensures r.Ok? <==> v.Nil? || (v.Int? && 0 <= v.n < 0x1_0000_0000_0000_0000)
    ensures r.Ok? && v.Int? ==> r.value == Some(v.n)
    ensures v.Nil? ==> r == Ok(None)
  {
    match v
    case Nil => Ok(None)
    case Int(n) => if 0 <= n < 0x1_0000_0000_0000_0000 then Ok(Some(n)) else Err(TYPE_ERROR)
    case _ => Err(TYPE_ERROR)
  }

  /** The integers of an array, when every one is a byte. */
  predicate AllBytes(items: seq<MsgValue>)
  {
    forall k :: 0 <= k < |items| ==> items[k].Int? && 0 <= items[k].n < 0x100
  }

  function BytesOf(items: seq<MsgValue>): (r: seq<byte>)
    requires AllBytes(items)
    ensures |r| == |items| && forall k :: 0 <= k < |items| ==> r[k] == items[k].n
  {
    seq(|items|, k requires 0 <= k < |items| && AllBytes(items) => items[k].n as byte)
  }

  /**
   * A `serde_bytes::ByteBuf`: the bytes of a binary, of a string's UTF-8, or
   * of an array of byte-sized integers.
   */
  function ByteBufOf(v: MsgValue): (r: Result<seq<byte>>)
    ensures v.Bin? ==> r == Ok(v.bytes)
    ensures v.Str? ==> r == Ok(Utf8.Encode(v.s))
    ensures v.Nil? || v.Int? || v.Map? || v.Bool? || v.Float? ==> r.Err?
  {
    match v
    case Bin(b) => Ok(b)
    case Str(s) => Ok(Utf8.Encode(s))
    case Array(items) => if AllBytes(items) then Ok(BytesOf(items)) else Err(TYPE_ERROR)
    case _ => Err(TYPE_ERROR)
  }

  /** `Crc32Repr`, an untagged enum: `Int(u32)` is tried before `Bin(ByteBuf)`. */
  datatype CrcRepr = CrcInt(v: u32) | CrcBin(raw: seq<byte>)

  function CrcReprOf(v: MsgValue): (r: Result<CrcRepr>)
    ensures v.Int? && 0 <= v.n < 0x1_0000_0000 ==> r == Ok(CrcInt(v.n))
    ensures !(v.Int? && 0 <= v.n < 0x1_0000_0000) ==>
      (r.Ok? <==> ByteBufOf(v).Ok?) && (r.Ok? ==> r.value == CrcBin(ByteBufOf(v).value))
  {
    if v.Int? && 0 <= v.n < 0x1_0000_0000 then Ok(CrcInt(v.n))
    else
      var raw :- ByteBufOf(v);
      Ok(CrcBin(raw))
  }

  /** `SerialRepr`, an untagged enum: `Str(String)` is tried before `Bin(ByteBuf)`. */
  datatype SerialRepr = SerialStr(s: string) | SerialBin(raw: seq<byte>)

  function SerialReprOf(v: MsgValue): (r: Result<SerialRepr>)
    ensures StringOf(v).Ok? ==> r == Ok(SerialStr(StringOf(v).value))
    ensures StringOf(v).Err? ==>
      (r.Ok? <==> ByteBufOf(v).Ok?) && (r.Ok? ==> r.value == SerialBin(ByteBufOf(v).value))
  {
    match StringOf(v)
    case Ok(s) => Ok(SerialStr(s))
    case Err(_) =>
      var raw :- ByteBufOf(v);
      Ok(SerialBin(raw))
  }

  /** `u32::from_le_bytes`. */
  function FromLeBytes(b0: byte, b1: byte, b2: byte, b3: byte): u32
  {
    b0 + 0x100 * b1 + 0x1_0000 * b2 + 0x100_0000 * b3
  }

  /** `u32::to_be` on a little-endian host: the four bytes in reverse order. */
  function SwapBytes(x: u32): u32
  {
    (x % 0x100) * 0x100_0000 + (x / 0x100 % 0x100) * 0x1_0000 + (x / 0x1_0000 % 0x100) * 0x100 + x / 0x100_0000
  }

  /** The crc as the visitor stores it for a 4-byte binary. */
  function CrcOfBytes(raw: seq<byte>): u32
    requires |raw| == 4
  {
    SwapBytes(FromLeBytes(raw[0], raw[1], raw[2], raw[3]))
  }

  /** The big-endian reading of four bytes. */
  function BigEndian(raw: seq<byte>): int
    requires |raw| == 4
  {
    0x100_0000 * (raw[0] as int) + 0x1_0000 * (raw[1] as int) + 0x100 * (raw[2] as int) + raw[3] as int
  }

  /** Four crc bytes read little-endian and then swapped are the big-endian reading of those bytes. */
  lemma CrcOfBytesIsBigEndian(raw: seq<byte>)
    requires |raw| == 4
    ensures CrcOfBytes(raw) == BigEndian(raw)
  {
    var (b0, b1, b2, b3) := (raw[0] as int, raw[1] as int, raw[2] as int, raw[3] as int);
    var x := FromLeBytes(raw[0], raw[1], raw[2], raw[3]) as int;
    var hi := b1 + 0x100 * b2 + 0x1_0000 * b3;
    SplitAt(x, b0, hi, 0x100);
    SplitAt(x / 0x100, b1, b2 + 0x100 * b3, 0x100);
    SplitAt(x, b0 + 0x100 * b1, b2 + 0x100 * b3, 0x1_0000);
    SplitAt(x / 0x1_0000, b2, b3, 0x100);
    SplitAt(x, b0 + 0x100 * b1 + 0x1_0000 * b2, b3, 0x100_0000);
  }

  /** Dividing `lo + d * hi` by `d` when `lo` is below `d`. */
  lemma SplitAt(x: int, lo: int, hi: int, d: int)
    requires d == 0x100 || d == 0x1_0000 || d == 0x100_0000
    requires 0 <= lo < d && x == lo + d * hi
    ensures x % d == lo && x / d == hi
  {
  }

  // ------------------------------------------------------------ visitor

  /** The keys the visitor recognises, and `Unknown` for every other one. */
  datatype Key =
    | Name | Description | Genre | Developer | Publisher | Franchise | Origin | RomName
    | ReleaseYear | ReleaseMonth | Size | Crc | Serial | Unknown

  function KeyOf(key: string): Key
  {
    match key
    case "name" => Name
    case "description" => Description
    case "genre" => Genre
    case "developer" => Developer
    case "publisher" => Publisher
    case "franchise" => Franchise
    case "origin" => Origin
    case "rom_name" => RomName
    case "releaseyear" => ReleaseYear
    case "releasemonth" => ReleaseMonth
    case "size" => Size
    case "crc" => Crc
    case "serial" => Serial
    case _ => Unknown
  }

  /**
   * One arm of `visit_map`: the value of `key` decoded into the field it
   * names. Any other key has its value skipped as `IgnoredAny`.
   */
  function SetField(g: GameInfo, key: string, v: MsgValue): (r: Result<GameInfo>)
    ensures KeyOf(key).Unknown? ==> r == Ok(g)
    ensures r.Ok? ==> r.value.rumble == g.rumble && r.value.rdbName == g.rdbName
  {
    SetKey(g, KeyOf(key), v)
  }

  /** The field decoding of `SetField`, once the key is recognised. */
  function SetKey(g: GameInfo, k: Key, v: MsgValue): (r: Result<GameInfo>)
    ensures k.Unknown? ==> r == Ok(g)
    ensures r.Ok? ==> r.value.rumble == g.rumble && r.value.rdbName == g.rdbName
  {
    match k
    case Name => var s :- OptString(v); Ok(g.(name := s))
    case Description => var s :- OptString(v); Ok(g.(description := s))
    case Genre => var s :- OptString(v); Ok(g.(genre := s))
    case Developer => var s :- OptString(v); Ok(g.(developer := s))
    case Publisher => var s :- OptString(v); Ok(g.(publisher := s))
    case Franchise => var s :- OptString(v); Ok(g.(franchise := s))
    case Origin => var s :- OptString(v); Ok(g.(origin := s))
    case RomName => var s :- OptString(v); Ok(g.(romName := s))
    case ReleaseYear => var n :- OptU32(v); Ok(g.(releaseYear := n))
    case ReleaseMonth => var n :- OptU32(v); Ok(g.(releaseMonth := n))
    case Size => var n :- OptU64(v); Ok(g.(size := n))
    case Crc =>
      var c :- CrcReprOf(v);
      (match c
       case CrcInt(n) => Ok(g.(crc32 := Some(n)))
       case CrcBin(raw) => if |raw| == 4 then Ok(g.(crc32 := Some(CrcOfBytes(raw)))) else Ok(g))
    case Serial =>
      var s :- SerialReprOf(v);
      (match s
       case SerialStr(t) => Ok(g.(serial := Some(t)))
       case SerialBin(raw) => Ok(g.(serial := Utf8.Decode(raw))))
    case Unknown => Ok(g)
  }

  /** One entry of the map: its key read as a `String`, then its field set. */
  function VisitEntry(g: GameInfo, e: (MsgValue, MsgValue)): Result<GameInfo>
  {
    var key :- StringOf(e.0);
    SetField(g, key, e.1)
  }

  /** The entries visited in order; the first error ends the visit. */
  function Visit(g: GameInfo, entries: seq<(MsgValue, MsgValue)>): Result<GameInfo>
    decreases |entries|
  {
    if entries == [] then Ok(g)
    else
      match VisitEntry(g, entries[0])
      case Err(m) => Err(m)
      case Ok(h) => Visit(h, entries[1..])
  }

  /** `GameVisitor::visit_map`: a default record filled entry by entry. */
  method VisitMap(entries: seq<(MsgValue, MsgValue)>) returns (r: Result<GameInfo>)
    ensures r == Visit(DEFAULT_GAME, entries)
  {
    var game := DEFAULT_GAME;
    var i := 0;
    while i < |entries|
      invariant 0 <= i <= |entries|
      invariant Visit(DEFAULT_GAME, entries) == Visit(game, entries[i..])
    {
      assert entries[i..][0] == entries[i] && entries[i..][1..] == entries[i + 1..];
      var key := StringOf(entries[i].0);
      if key.Err? {
        return Err(key.msg);
      }
      var next := SetField(game, key.value, entries[i].1);
      if next.Err? {
        return Err(next.msg);
      }
      game := next.value;
      i := i + 1;
    }
    assert entries[i..] == [];
    r := Ok(game);
  }

  /** `GameInfo::deserialize` on one record: a map is visited; any other value is a type error. */
  function DecodeItem(item: Item): (r: Outcome<GameInfo>)
    ensures item.Fail? ==> r == Failed(item.err)
    ensures item.Record? && item.value.Map? && Visit(DEFAULT_GAME, item.value.entries).Ok? ==>
      r == Decoded(Visit(DEFAULT_GAME, item.value.entries).value)
    ensures r.Failed? && item.Record? ==> r.err.Syntax?
  {
    match item
    case Fail(e) => Failed(e)
    case Record(Map(entries)) =>
      (match Visit(DEFAULT_GAME, entries)
       case Ok(g) => Decoded(g)
       case Err(m) => Failed(Syntax(m)))
    case Record(_) => Failed(Syntax(TYPE_ERROR))
  }

  /** Every item of a stream decoded. */
  function DecodeItems(items: seq<Item>): (r: seq<Outcome<GameInfo>>)
    ensures |r| == |items| && forall k :: 0 <= k < |items| ==> r[k] == DecodeItem(items[k])
  {
    seq(|items|, k requires 0 <= k < |items| => DecodeItem(items[k]))
  }

  // ---------------------------------------------------------- properties

  /** The value of the field a key names, for comparing records one field at a time. */
  datatype Slot = SText(t: Option<string>) | SNum(n: Option<int>) | NoSlot

  function SlotOf(g: GameInfo, k: Key): Slot
  {
    match k
    case Name => SText(g.name)
    case Description => SText(g.description)
    case Genre => SText(g.genre)
    case Developer => SText(g.developer)
    case Publisher => SText(g.publisher)
    case Franchise => SText(g.franchise)
    case Origin => SText(g.origin)
    case RomName => SText(g.romName)
    case ReleaseYear => SNum(if g.releaseYear.Some? then Some(g.releaseYear.value) else None)
    case ReleaseMonth => SNum(if g.releaseMonth.Some? then Some(g.releaseMonth.value) else None)
    case Size => SNum(if g.size.Some? then Some(g.size.value) else None)
    case Crc => SNum(if g.crc32.Some? then Some(g.crc32.value) else None)
    case Serial => SText(g.serial)
    case Unknown => NoSlot
  }

  /** The key an entry names, when it reads as a `String`. */
  function EntryKey(e: (MsgValue, MsgValue)): Option<Key>
  {
    match StringOf(e.0)
    case Ok(s) => Some(KeyOf(s))
    case Err(_) => None
  }

  /** A key changes at most its own field. */
  lemma SetFieldOnlyItsSlot(g: GameInfo, key: string, v: MsgValue, other: Key)
    requires SetField(g, key, v).Ok? && other != KeyOf(key)
    ensures SlotOf(SetField(g, key, v).value, other) == SlotOf(g, other)
  {
    SetKeyOnlyItsSlot(g, KeyOf(key), v, other);
  }

  lemma SetKeyOnlyItsSlot(g: GameInfo, k: Key, v: MsgValue, other: Key)
    requires SetKey(g, k, v).Ok? && other != k
    ensures SlotOf(SetKey(g, k, v).value, other) == SlotOf(g, other)
  {
  }

  /** Visiting entries none of which names `key` keeps that field. */
  lemma {:induction false} VisitKeepsSlot(g: GameInfo, entries: seq<(MsgValue, MsgValue)>, key: Key)
    requires forall k :: 0 <= k < |entries| ==> EntryKey(entries[k]) != Some(key)
    requires Visit(g, entries).Ok?
    ensures SlotOf(Visit(g, entries).value, key) == SlotOf(g, key)
    decreases |entries|
  {
    if entries != [] {
      var e := entries[0];
      var h := VisitEntry(g, e).value;
      SetFieldOnlyItsSlot(g, StringOf(e.0).value, e.1, key);
      assert forall k :: 0 <= k < |entries[1..]| ==> entries[1..][k] == entries[k + 1];
      VisitKeepsSlot(h, entries[1..], key);
    }
  }

  /** Visiting `a` then `b` is visiting `a + b`. */
  lemma {:induction false} VisitAppend(g: GameInfo, a: seq<(MsgValue, MsgValue)>, b: seq<(MsgValue, MsgValue)>)
    ensures Visit(g, a + b) == (match Visit(g, a) case Ok(h) => Visit(h, b) case Err(m) => Err(m))
    decreases |a|
  {
    if a == [] {
      assert a + b == b;
    } else {
      assert (a + b)[0] == a[0] && (a + b)[1..] == a[1..] + b;
      match VisitEntry(g, a[0])
      case Err(_) =>
      case Ok(h) => VisitAppend(h, a[1..], b);
    }
  }

  /**
   * The last occurrence of a key decides its field: whatever came before,
   * the field ends up as the last entry for that key set it.
   */
  lemma LastOccurrenceWins(g: GameInfo, before: seq<(MsgValue, MsgValue)>, key: string, v: MsgValue,
      after: seq<(MsgValue, MsgValue)>)
    requires forall k :: 0 <= k < |after| ==> EntryKey(after[k]) != Some(KeyOf(key))
    requires Visit(g, before + [(Str(key), v)] + after).Ok?
    ensures Visit(g, before).Ok? && SetField(Visit(g, before).value, key, v).Ok?
    ensures SlotOf(Visit(g, before + [(Str(key), v)] + after).value, KeyOf(key))
      == SlotOf(SetField(Visit(g, before).value, key, v).value, KeyOf(key))
  {
    VisitAppend(g, before + [(Str(key), v)], after);
    VisitAppend(g, before, [(Str(key), v)]);
    assert [(Str(key), v)][1..] == [];
    var h := SetField(Visit(g, before).value, key, v).value;
    VisitKeepsSlot(h, after, KeyOf(key));
  }

  /** An unknown key leaves the record as it was. */
  lemma UnknownKeyIgnored(g: GameInfo, key: string, v: MsgValue)
    requires KeyOf(key).Unknown?
    ensures VisitEntry(g, (Str(key), v)) == Ok(g)
  {
  }

  /** No input map sets rumble or rdb_name: a decoded record keeps false and "". */
  lemma {:induction false} VisitKeepsRumbleAndRdbName(g: GameInfo, entries: seq<(MsgValue, MsgValue)>)
    requires Visit(g, entries).Ok?
    ensures Visit(g, entries).value.rumble == g.rumble && Visit(g, entries).value.rdbName == g.rdbName
    decreases |entries|
  {
    if entries != [] {
      VisitKeepsRumbleAndRdbName(VisitEntry(g, entries[0]).value, entries[1..]);
    }
  }

  lemma DecodedRecordDefaults(entries: seq<(MsgValue, MsgValue)>)
    requires Visit(DEFAULT_GAME, entries).Ok?
    ensures !Visit(DEFAULT_GAME, entries).value.rumble && Visit(DEFAULT_GAME, entries).value.rdbName == ""
  {
    VisitKeepsRumbleAndRdbName(DEFAULT_GAME, entries);
  }

  /** An integer crc is stored as it is. */
  lemma CrcFromInt(g: GameInfo, n: u32)
    ensures VisitEntry(g, (Str("crc"), Int(n))) == Ok(g.(crc32 := Some(n)))
  {
  }

  /** A 4-byte binary crc is stored as the big-endian reading of its bytes. */
  lemma CrcFromFourBytes(g: GameInfo, raw: seq<byte>)
    requires |raw| == 4
    ensures VisitEntry(g, (Str("crc"), Bin(raw))) == Ok(g.(crc32 := Some(BigEndian(raw))))
  {
    CrcOfBytesIsBigEndian(raw);
  }

  /** A binary crc of any other length leaves the crc as it was. */
  lemma CrcOtherLengthIgnored(g: GameInfo, raw: seq<byte>)
    requires |raw| != 4
    ensures VisitEntry(g, (Str("crc"), Bin(raw))) == Ok(g)
  {
  }

  /** A binary serial is its text when it is valid UTF-8, and no serial otherwise. */
  lemma SerialFromBytes(g: GameInfo, raw: seq<byte>)
    ensures VisitEntry(g, (Str("serial"), Bin(raw))) == Ok(g.(serial := Utf8.Decode(raw)))
  {
    assert KeyOf("serial") == Serial;
  }

  /** In particular the UTF-8 bytes of a text give back the text. */
  lemma SerialFromEncodedText(g: GameInfo, s: string)
    ensures VisitEntry(g, (Str("serial"), Bin(Utf8.Encode(s)))) == Ok(g.(serial := Some(s)))
  {
    SerialFromBytes(g, Utf8.Encode(s));
    Utf8.DecodeEncode(s);
  }

  /** releaseyear, releasemonth and size fill their fields with in-range integers. */
  lemma NumericFields(g: GameInfo, y: u32, m: u32, sz: u64)
    ensures VisitEntry(g, (Str("releaseyear"), Int(y))) == Ok(g.(releaseYear := Some(y)))
    ensures VisitEntry(g, (Str("releasemonth"), Int(m))) == Ok(g.(releaseMonth := Some(m)))
    ensures VisitEntry(g, (Str("size"), Int(sz))) == Ok(g.(size := Some(sz)))
  {
    assert KeyOf("releaseyear") == ReleaseYear;
    assert KeyOf("releasemonth") == ReleaseMonth;
    assert KeyOf("size") == Size;
  }
}
