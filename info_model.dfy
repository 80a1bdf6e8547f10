/**
 * `CoreInfo`: what a core's `.info` file says about it, filled key by key.
 * The fourteen text fields and eleven flags that `set_value` writes are held
 * in two maps indexed by field; a field that was never written reads as its
 * default ("" or false), as in `CoreInfo::default()`.
 */
module InfoModel {
  import opened Wrappers
  import Text

  /** The text fields of `CoreInfo`. */
  datatype TextKey =
    | DisplayName | Authors | SupportedExtensions | CoreName | License | Permissions
    | DisplayVersion | Categories | Description | Manufacturer | SystemName | SystemId
    | SaveStateFeatures | CoreOptionsVersion

  /** The boolean fields of `CoreInfo`. */
  datatype FlagKey =
    | SaveState | Cheats | InputDescriptors | MemoryDescriptors | LibretroSaves | CoreOptions
    | LoadSubsystem | SupportsNoGame | HwRender | NeedsFullPath | DiskControl

  datatype CoreInfo = CoreInfo(
    fileName: string, isInstalled: bool, path: string,
    text: map<TextKey, string>, flags: map<FlagKey, bool>, database: seq<string>,
    requiredHwApi: string, isExperimental: bool)

  /** `CoreInfo::default()`. */
  const DEFAULT_INFO := CoreInfo("", false, "", map[], map[], [], "", false)

  function TextOf(info: CoreInfo, k: TextKey): string
  {
    if k in info.text then info.text[k] else ""
  }

  function FlagOf(info: CoreInfo, k: FlagKey): bool
  {
    if k in info.flags then info.flags[k] else false
  }

  /** The field a `.info` key names. */
  datatype Field = Text(t: TextKey) | Flag(f: FlagKey) | Database

  /** The keys `set_value` recognises, with the field each one writes. */
  const KEYS: seq<(string, Field)> := [
    ("display_name", Text(DisplayName)), ("authors", Text(Authors)),
    ("supported_extensions", Text(SupportedExtensions)), ("corename", Text(CoreName)),
    ("license", Text(License)), ("permissions", Text(Permissions)),
    ("display_version", Text(DisplayVersion)), ("categories", Text(Categories)),
    ("description", Text(Description)), ("manufacturer", Text(Manufacturer)),
    ("systemname", Text(SystemName)), ("systemid", Text(SystemId)),
    ("savestate", Flag(SaveState)), ("savestate_features", Text(SaveStateFeatures)),
    ("cheats", Flag(Cheats)), ("input_descriptors", Flag(InputDescriptors)),
    ("memory_descriptors", Flag(MemoryDescriptors)), ("libretro_saves", Flag(LibretroSaves)),
    ("core_options", Flag(CoreOptions)), ("core_options_version", Text(CoreOptionsVersion)),
    ("load_subsystem", Flag(LoadSubsystem)), ("supports_no_game", Flag(SupportsNoGame)),
    ("database", Database), ("hw_render", Flag(HwRender)),
    ("needs_fullpath", Flag(NeedsFullPath)), ("disk_control", Flag(DiskControl))]

  /** The field of the first table entry for `key`. */
  function Lookup(table: seq<(string, Field)>, key: string): Option<Field>
  {
    if table == [] then None
    else if table[0].0 == key then Some(table[0].1)
    else Lookup(table[1..], key)
  }

  /** The field a `.info` key names, if any. */
  function FieldOf(key: string): Option<Field>
  {
    Lookup(KEYS, key)
  }

  /** A key absent from the table names no field. */
  lemma {:induction false} LookupMissing(table: seq<(string, Field)>, key: string)
    requires forall i :: 0 <= i < |table| ==> table[i].0 != key
    ensures Lookup(table, key) == None
  {
    if table != [] {
      assert forall i :: 0 <= i < |table[1..]| ==> table[1..][i] == table[i + 1];
      LookupMissing(table[1..], key);
    }
  }

  /** The entry at `i` wins when no earlier entry has its key. */
  lemma {:induction false} LookupAt(table: seq<(string, Field)>, i: nat)
    requires i < |table| && forall j :: 0 <= j < i ==> table[j].0 != table[i].0
    ensures Lookup(table, table[i].0) == Some(table[i].1)
  {
    if i > 0 {
      assert forall j :: 0 <= j < i - 1 ==> table[1..][j] == table[j + 1];
      LookupAt(table[1..], i - 1);
    }
  }

  /** The keys are pairwise distinct. */
  lemma KeysDistinct()
    ensures forall i, j :: 0 <= i < j < |KEYS| ==> KEYS[i].0 != KEYS[j].0
  {
  }

  /** No two keys name the same field. */
  lemma FieldsDistinct()
    ensures forall i, j :: 0 <= i < j < |KEYS| ==> KEYS[i].1 != KEYS[j].1
  {
  }

  /** Each key in the table names its own field, and a key outside it names none. */
  lemma KeyField(key: string)
    ensures forall i :: 0 <= i < |KEYS| && KEYS[i].0 == key ==> FieldOf(key) == Some(KEYS[i].1)
    ensures (forall i :: 0 <= i < |KEYS| ==> KEYS[i].0 != key) ==> FieldOf(key).None?
  {
    KeysDistinct();
    forall i | 0 <= i < |KEYS| && KEYS[i].0 == key
      ensures FieldOf(key) == Some(KEYS[i].1)
    {
      LookupAt(KEYS, i);
    }
    if forall i :: 0 <= i < |KEYS| ==> KEYS[i].0 != key {
      LookupMissing(KEYS, key);
    }
  }

  /** `get_boolean_value`: a flag is set only by the exact text "true". */
  function BooleanValue(value: string): (b: bool)
    ensures b <==> value == "true"
  {
    value == "true"
  }

  /**
   * `set_value`: the key names at most one field, which takes the value (a
   * flag takes whether it is "true", `database` the '|'-separated parts);
   * every other field is as it was, and `file_name`, `is_installed`, `path`,
   * `required_hw_api` and `is_experimental` are never written.
   */
  function SetValue(info: CoreInfo, key: string, value: string): (r: CoreInfo)
    ensures FieldOf(key).None? ==> r == info
    ensures forall k :: TextOf(r, k) == (if FieldOf(key) == Some(Text(k)) then value else TextOf(info, k))
    ensures forall k :: FlagOf(r, k) == (if FieldOf(key) == Some(Flag(k)) then value == "true" else FlagOf(info, k))
    ensures r.database == (if FieldOf(key) == Some(Database) then Text.Split(value, '|') else info.database)
    ensures r.requiredHwApi == info.requiredHwApi && r.isExperimental == info.isExperimental
    ensures r.fileName == info.fileName && r.path == info.path && r.isInstalled == info.isInstalled
  {
    match FieldOf(key)
    case None => info
    case Some(Text(k)) => info.(text := info.text[k := value])
    case Some(Flag(k)) => info.(flags := info.flags[k := BooleanValue(value)])
    case Some(Database) => info.(database := Text.Split(value, '|'))
  }

  /** The `database` parts joined with '|' give back the value they were split from. */
  lemma DatabaseRoundTrip(info: CoreInfo, value: string)
    ensures Text.Join(SetValue(info, "database", value).database, "|") == value
  {
    KeyField("database");
    assert KEYS[22] == ("database", Database);
    Text.JoinSplit(value, '|');
  }

  /** `s` without its repeated elements, each kept at its first position. */
  function Distinct(s: seq<string>): (r: seq<string>)
    ensures forall x :: x in r <==> x in s
    ensures forall i, j :: 0 <= i < j < |r| ==> r[i] != r[j]
  {
    if s == [] then []
    else
      var rest := Distinct(s[..|s| - 1]);
      if s[|s| - 1] in rest then rest else rest + [s[|s| - 1]]
  }

  /**
   * `get_rdb_name`: every database entry once. The source collects them in a
   * `HashSet`, whose order is unspecified; this model keeps first occurrences.
   */
  function GetRdbName(info: CoreInfo): (r: seq<string>)
    ensures forall x :: x in r <==> x in info.database
    ensures forall i, j :: 0 <= i < j < |r| ==> r[i] != r[j]
  {
    Distinct(info.database)
  }

  /** The rdb names of the cores, one core after another. */
  function AllRdbNames(cores: seq<CoreInfo>): seq<string>
  {
    if cores == [] then [] else AllRdbNames(cores[..|cores| - 1]) + GetRdbName(cores[|cores| - 1])
  }

  /** A name is among all the rdb names exactly when some core lists it as a database. */
  lemma {:induction false} AllRdbNamesMembers(cores: seq<CoreInfo>, x: string)
    ensures x in AllRdbNames(cores) <==> exists i :: 0 <= i < |cores| && x in cores[i].database
  {
    if cores != [] {
      var n := |cores| - 1;
      var init := cores[..n];
      AllRdbNamesMembers(init, x);
      assert AllRdbNames(cores) == AllRdbNames(init) + GetRdbName(cores[n]);
      assert x in GetRdbName(cores[n]) <==> x in cores[n].database;
      assert forall i :: 0 <= i < n ==> init[i] == cores[i];
    }
  }

  /** `get_rdb_names`: each core's `get_rdb_name`, extended onto the output in order. */
  method GetRdbNames(cores: seq<CoreInfo>) returns (out: seq<string>)
    ensures out == AllRdbNames(cores)
  {
    out := [];
    var i := 0;
    while i < |cores|
      invariant 0 <= i <= |cores|
      invariant out == AllRdbNames(cores[..i])
    {
      assert cores[..i + 1][..i] == cores[..i];
      out := out + GetRdbName(cores[i]);
      i := i + 1;
    }
    assert cores[..i] == cores;
  }

  /** `get_file_name`: the cores' file names, in order. */
  function GetFileName(cores: seq<CoreInfo>): (r: seq<string>)
    ensures |r| == |cores|
    ensures forall i :: 0 <= i < |cores| ==> r[i] == cores[i].fileName
  {
    if cores == [] then [] else [cores[0].fileName] + GetFileName(cores[1..])
  }
}
