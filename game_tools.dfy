/**
 * ROM loading and save-state files: `SaveInfo`, the ROM name, the save
 * path layout `<save dir>/<library>/<rom>/<NN>.save`, and the two save-state
 * operations, which go through the filesystem step by step.
 */
module GameTools {
  import opened Wrappers
  import Text
  import PathRules
  import Validation
  import Fs
  import Utf8

  const MAX_ROM_SIZE_MB: nat := 500
  const MAX_SAVE_STATE_SIZE_MB: nat := 100
  const MAX_SAVE_SLOTS: nat := 99
  const SAVE_EXTENSION_FILE: string := "save"
  const MAX_ROM_NAME_BYTES: nat := 255
  const MAX_SAVE_DIR_BYTES: nat := 1024

  /** The largest save state, in bytes. */
  function MaxSaveStateBytes(): nat { MAX_SAVE_STATE_SIZE_MB * Validation.MIB }

  /** What the core reports about itself that loading and saving depend on. */
  datatype SysInfo = SysInfo(libraryName: string, validExtensions: string, needFullPath: bool)

  /** A validated request to save or load a state. */
  datatype SaveInfo = SaveInfo(saveDir: string, libraryName: string, romName: string, slot: nat, bufferSize: nat)

  /** What the core receives when a game is loaded: the file's bytes (empty when it wants the path) and the path. */
  datatype RomInfo = RomInfo(data: seq<byte>, path: Validation.CPtr, size: nat)

  // ------------------------------------------------------------------ names

  /** Characters reserved by common filesystems, and NUL. */
  predicate IsReserved(c: char)
  {
    c in "/\\:*?\"<>|" || c == '\0'
  }

  predicate HasReserved(s: string)
  {
    exists k :: 0 <= k < |s| && IsReserved(s[k])
  }

  /** `SaveInfo::new`. */
  function NewSaveInfo(saveDir: string, libraryName: string, romName: string, slot: nat, bufferSize: nat,
                       fs: Fs.Snapshot): (r: Result<SaveInfo>)
    ensures r.Ok? <==> (slot <= MAX_SAVE_SLOTS && Validation.ValidateDirectoryPath(saveDir, fs).Ok?
      && 0 < bufferSize <= MaxSaveStateBytes() && libraryName != [] && romName != []
      && !HasReserved(libraryName) && !HasReserved(romName))
    ensures r.Ok? ==> r.value == SaveInfo(saveDir, libraryName, romName, slot, bufferSize)
  {
    if slot > MAX_SAVE_SLOTS then Err("Invalid slot number")
    else
      var _ :- Validation.ValidateDirectoryPath(saveDir, fs);
      // The slot was checked above, so the second slot check always passes
      assert Validation.ValidateSaveSlot(slot).Ok?;
      var _ :- Validation.ValidateBufferSize(bufferSize, MaxSaveStateBytes());
      if libraryName == [] || romName == [] then Err("Library name and ROM name cannot be empty")
      else if HasReserved(libraryName) || HasReserved(romName) then Err("Invalid characters in name")
      else Ok(SaveInfo(saveDir, libraryName, romName, slot, bufferSize))
  }

  /** `sanitize_filename`: each reserved or control character becomes '_'. */
  function SanitizeChar(c: char): char
  {
    if IsReserved(c) || Text.IsControl(c) then '_' else c
  }

  function Sanitize(name: string): (r: string)
    ensures |r| == |name|
    ensures forall k :: 0 <= k < |name| ==> r[k] == SanitizeChar(name[k])
  {
    seq(|name|, k requires 0 <= k < |name| => SanitizeChar(name[k]))
  }

  /** A sanitized name has no reserved and no control characters, and in particular no '/'. */
  lemma SanitizeIsClean(name: string)
    ensures !HasReserved(Sanitize(name))
    ensures forall k :: 0 <= k < |name| ==> !Text.IsControl(Sanitize(name)[k])
    ensures '/' !in Sanitize(name)
  {
  }

  /** Sanitizing leaves a clean name unchanged, so it is idempotent. */
  lemma SanitizeKeepsClean(name: string)
    requires !HasReserved(name) && forall k :: 0 <= k < |name| ==> !Text.IsControl(name[k])
    ensures Sanitize(name) == name
  {
  }

  lemma SanitizeIdempotent(name: string)
    ensures Sanitize(Sanitize(name)) == Sanitize(name)
  {
    SanitizeIsClean(name);
    SanitizeKeepsClean(Sanitize(name));
  }

  /** The source's own examples for the sanitizer. */
  lemma SanitizeExamples()
    ensures Sanitize("test<>file") == "test__file"
    ensures Sanitize("normal_name") == "normal_name"
  {
    assert Sanitize("test<>file")[4] == '_' && Sanitize("test<>file")[5] == '_';
  }

  /** `get_rom_name`: the file name without its ".ext" occurrences, checked and sanitized. */
  function GetRomName(path: string): Result<string>
  {
    match PathRules.FileName(path)
    case None => Err("Cannot extract filename from path")
    case Some(fileName) =>
      match PathRules.Extension(path)
      case None => Err("File has no extension")
      case Some(ext) =>
        var name := Text.ReplaceAll(fileName, "." + ext, "");
        if name == [] then Err("ROM name cannot be empty after removing extension")
        else if Text.Utf8Len(name) > MAX_ROM_NAME_BYTES then Err("ROM name is too long (max 255 characters)")
        else Ok(Sanitize(name))
  }

  /** The conditions under which a file name stem.ext yields the sanitized stem as ROM name. */
  predicate PlainRomFile(stem: string, ext: string)
  {
    stem != [] && stem != "." && '/' !in stem && '/' !in ext && '.' !in ext
    && !Text.Contains(stem, "." + ext) && Text.Utf8Len(stem) <= MAX_ROM_NAME_BYTES
  }

  /** The ROM name of `<dir>/stem.ext` is the sanitized stem, wherever the file lives. */
  lemma GetRomNameOfPlainFile(dir: string, stem: string, ext: string)
    requires PlainRomFile(stem, ext)
    ensures GetRomName(dir + "/" + stem + "." + ext) == Ok(Sanitize(stem))
  {
    var f := stem + "." + ext;
    assert dir + "/" + stem + "." + ext == dir + "/" + f;
    PlainFileName(stem, ext);
    PathRules.FileNameOfPush(dir, f);
    RomNameFromFileName(stem, ext);
  }

  /** The same for a bare file name, as in the source's own test "test_game.sfc". */
  lemma GetRomNameOfBareFile(stem: string, ext: string)
    requires PlainRomFile(stem, ext)
    ensures GetRomName(stem + "." + ext) == Ok(Sanitize(stem))
  {
    var f := stem + "." + ext;
    PlainFileName(stem, ext);
    PathRules.FileNameOfBare(f);
    RomNameFromFileName(stem, ext);
  }

  /** stem.ext is a proper single component: neither empty, "." nor "..", and without '/'. */
  lemma PlainFileName(stem: string, ext: string)
    requires PlainRomFile(stem, ext)
    ensures var f := stem + "." + ext; f != "" && f != "." && f != ".." && '/' !in f
  {
    var f := stem + "." + ext;
    assert f[..|stem|] == stem;
    assert f[|stem|] == '.';
    assert |stem| == 1 ==> stem == [stem[0]];
  }

  lemma RomNameFromFileName(stem: string, ext: string)
    requires PlainRomFile(stem, ext)
    ensures PathRules.NameExtension(stem + "." + ext) == Some(ext)
    ensures Text.ReplaceAll(stem + "." + ext, "." + ext, "") == stem
  {
    PlainFileName(stem, ext);
    PathRules.NameExtensionOfJoin(stem, ext);
    var pat := "." + ext;
    assert Text.HeadUnique(pat) by {
      forall k | 0 < k < |pat| ensures pat[k] != pat[0] {
        assert pat[k] == ext[k - 1];
      }
    }
    assert stem + "." + ext == stem + pat;
    Text.ReplaceAllTrailing(stem, pat, "");
    Text.ReplaceAllAbsent(stem, pat, "");
  }

  /** A name without any '.' has no extension and is refused, as the source's test "no_extension" shows. */
  lemma GetRomNameNeedsExtension(name: string)
    requires name != [] && name != "." && name != ".." && '/' !in name && '.' !in name
    ensures GetRomName(name).Err?
  {
    PathRules.FileNameOfBare(name);
  }

  // ------------------------------------------------------------- save paths

  /** The file name of a slot: `format!("{:02}.save", slot)`. */
  function SlotFileName(slot: nat): string
  {
    Text.TwoDigits(slot) + "." + SAVE_EXTENSION_FILE
  }

  /** `get_validated_save_path`. */
  function GetValidatedSavePath(info: SaveInfo, fs: Fs.Snapshot): Result<string>
  {
    var base :- Validation.ValidateDirectoryPath(info.saveDir, fs);
    var dir := PathRules.Push(PathRules.Push(base, Sanitize(info.libraryName)), Sanitize(info.romName));
    if Text.Utf8Len(dir) > MAX_SAVE_DIR_BYTES then Err("Save path is too long")
    else Ok(PathRules.Push(dir, SlotFileName(info.slot)))
  }

  /** The directory part of the save path, as it is checked against the 1024-byte limit. */
  function SaveDir(saveDir: string, libraryName: string, romName: string): string
  {
    saveDir + "/" + Sanitize(libraryName) + "/" + Sanitize(romName)
  }

  /**
   * For a request made by `NewSaveInfo` on a directory not ending in '/',
   * the save file is `<dir>/<library>/<rom>/<NN>.save` with both names
   * sanitized, unless that directory exceeds 1024 bytes.
   */
  lemma SavePathLayout(info: SaveInfo, fs: Fs.Snapshot)
    requires NewSaveInfo(info.saveDir, info.libraryName, info.romName, info.slot, info.bufferSize, fs) == Ok(info)
    requires info.saveDir[|info.saveDir| - 1] != '/'
    ensures var dir := SaveDir(info.saveDir, info.libraryName, info.romName);
      GetValidatedSavePath(info, fs) ==
        if Text.Utf8Len(dir) > MAX_SAVE_DIR_BYTES then Err("Save path is too long")
        else Ok(dir + "/" + SlotFileName(info.slot))
  {
    var lib, rom := Sanitize(info.libraryName), Sanitize(info.romName);
    SanitizeIsClean(info.libraryName);
    SanitizeIsClean(info.romName);
    assert !Text.StartsWith(lib, "/") && !Text.StartsWith(rom, "/") by {
      assert lib[0] in lib && rom[0] in rom;
    }
    var d1 := PathRules.Push(info.saveDir, lib);
    assert d1 == info.saveDir + "/" + lib;
    assert d1[|d1| - 1] == lib[|lib| - 1];
    var d2 := PathRules.Push(d1, rom);
    assert d2 == d1 + "/" + rom;
    assert d2[|d2| - 1] == rom[|rom| - 1];
    var slotName := SlotFileName(info.slot);
    assert !Text.StartsWith(slotName, "/") by {
      assert slotName[0] == Text.TwoDigits(info.slot)[0];
    }
  }

  /** Two slots of the same game never share a file. */
  lemma SlotFilesDistinct(a: nat, b: nat)
    requires a <= MAX_SAVE_SLOTS && b <= MAX_SAVE_SLOTS && a != b
    ensures SlotFileName(a) != SlotFileName(b)
  {
    Text.TwoDigitsBelowHundred(a);
    Text.TwoDigitsBelowHundred(b);
    var sa, sb := SlotFileName(a), SlotFileName(b);
    if a / 10 != b / 10 {
      assert sa[0] != sb[0];
    } else {
      assert sa[1] != sb[1];
    }
  }

  /** The temporary file a save state is written to before it is renamed: the path with extension ".tmp". */
  function TempPath(savePath: string): string
  {
    PathRules.WithExtension(savePath, "tmp")
  }

  /** The temporary file of a slot file is `<dir>/<NN>.tmp`, never the slot file itself. */
  lemma TempPathOfSlot(dir: string, slot: nat)
    requires slot <= MAX_SAVE_SLOTS
    ensures TempPath(dir + "/" + SlotFileName(slot)) == dir + "/" + Text.TwoDigits(slot) + ".tmp"
    ensures TempPath(dir + "/" + SlotFileName(slot)) != dir + "/" + SlotFileName(slot)
  {
    var digits := Text.TwoDigits(slot);
    Text.TwoDigitsBelowHundred(slot);
    var f := SlotFileName(slot);
    assert f == digits + "." + "save";
    PathRules.FileNameOfPush(dir, f);
    PathRules.NameExtensionOfJoin(digits, "save");
    var p := dir + "/" + f;
    assert p[..|p| - 4] == dir + "/" + digits + ".";
  }

  // ------------------------------------------------------------ ROM loading

  /** `validate_rom_integrity`: a non-empty regular file of at most 500 MiB. */
  function ValidateRomIntegrity(path: string, fs: Fs.Snapshot): (r: Result<Unit>)
    ensures r.Ok? <==> fs.IsFile(path) && 0 < |fs.files[path]| <= MAX_ROM_SIZE_MB * Validation.MIB
  {
    if !fs.IsFile(path) then Err("ROM path does not point to a regular file")
    else if |fs.files[path]| == 0 then Err("ROM file is empty")
    else if |fs.files[path]| > MAX_ROM_SIZE_MB * Validation.MIB then Err("ROM file is too large")
    else Ok(Unit)
  }

  /** `create_game_info`: the file's bytes are read only when the core does not want the path. */
  function CreateGameInfo(path: string, sys: SysInfo, fs: Fs.Snapshot): Result<RomInfo>
  {
    var pathC :- Validation.CreateSafeCString(path);
    if sys.needFullPath then Ok(RomInfo([], pathC, 0))
    else
      var size :- Validation.ValidateFileSize(path, MAX_ROM_SIZE_MB, fs);
      var _ :- ValidateRomIntegrity(path, fs);
      if !fs.IsFile(path) then Err("Failed to open ROM file")
      else
        var data := fs.files[path];
        if |data| != size then Err("File size mismatch") else Ok(RomInfo(data, pathC, size))
  }

  /** The validation `try_load_game` performs before the core sees anything, and what the core then gets. */
  function PrepareGame(path: string, sys: SysInfo, fs: Fs.Snapshot): Result<RomInfo>
  {
    var validated :- Validation.ValidateFilePath(path, fs);
    var _ :- Validation.ValidateRomExtension(validated, sys.validExtensions);
    CreateGameInfo(validated, sys, fs)
  }

  /** `try_load_game`, given the core's answer to `retro_load_game`: on success it is always `true`. */
  function TryLoadGame(path: string, sys: SysInfo, fs: Fs.Snapshot, coreAccepts: bool): (r: Result<bool>)
    ensures r.Ok? <==> PrepareGame(path, sys, fs).Ok? && coreAccepts
    ensures r.Ok? ==> r.value
  {
    var _ :- PrepareGame(path, sys, fs);
    if !coreAccepts then Err("Core rejected ROM file") else Ok(true)
  }

  /**
   * A game that the core reads from memory reaches it with exactly the
   * bytes of the file, and only when it is a regular file with an accepted
   * extension and a size between 1 byte and 500 MiB.
   */
  lemma PrepareGameInMemory(path: string, sys: SysInfo, fs: Fs.Snapshot)
    requires !sys.needFullPath
    ensures PrepareGame(path, sys, fs).Ok? <==>
      Validation.PathPrechecks(path).Ok? && fs.IsFile(path)
      && Validation.ValidateRomExtension(path, sys.validExtensions).Ok?
      && 0 < |fs.files[path]| <= MAX_ROM_SIZE_MB * Validation.MIB
    ensures PrepareGame(path, sys, fs).Ok? ==>
      PrepareGame(path, sys, fs).value == RomInfo(fs.files[path], Validation.At(Utf8.Encode(path)), |fs.files[path]|)
  {
    if Validation.PathPrechecks(path).Ok? {
      Text.Utf8LenBounds(path);
      if fs.IsFile(path) && Validation.ValidateRomExtension(path, sys.validExtensions).Ok? {
        assert PrepareGame(path, sys, fs) == CreateGameInfo(path, sys, fs);
        CreateGameInfoInMemory(path, sys, fs);
      }
    }
  }

  /** The in-memory half of `create_game_info` for a path that makes a C string. */
  lemma CreateGameInfoInMemory(path: string, sys: SysInfo, fs: Fs.Snapshot)
    requires !sys.needFullPath && Validation.CreateSafeCString(path).Ok?
    ensures CreateGameInfo(path, sys, fs).Ok? <==> fs.IsFile(path) && 0 < |fs.files[path]| <= MAX_ROM_SIZE_MB * Validation.MIB
    ensures CreateGameInfo(path, sys, fs).Ok? ==>
      CreateGameInfo(path, sys, fs).value == RomInfo(fs.files[path], Validation.At(Utf8.Encode(path)), |fs.files[path]|)
  {
    if fs.IsFile(path) && 0 < |fs.files[path]| <= MAX_ROM_SIZE_MB * Validation.MIB {
      assert Validation.ValidateFileSize(path, MAX_ROM_SIZE_MB, fs) == Ok(|fs.files[path]|);
      assert ValidateRomIntegrity(path, fs) == Ok(Unit);
    }
  }

  // ------------------------------------------------------------ save states

  function Zeros(n: nat): (r: seq<byte>)
    ensures |r| == n && forall k :: 0 <= k < n ==> r[k] == 0
  {
    seq(n, _ => 0)
  }

  /**
   * `create_save_state`. The core's serializer is called with a zeroed
   * buffer of `bufferSize` bytes (returned as `offered`) and answers
   * `serializeOk`, having written `serialized` into it. The state is written
   * to the temporary file and renamed onto the slot file. `refused` holds
   * the directories the system declines to create.
   */
  method CreateSaveState(info: SaveInfo, store: Fs.FileStore, serializeOk: bool, serialized: seq<byte>,
                         refused: set<string>)
    returns (r: Result<string>, serializerCalled: bool, offered: seq<byte>)
    requires |serialized| == info.bufferSize
    modifies store
    ensures serializerCalled <==> 0 < info.bufferSize <= MaxSaveStateBytes()
    ensures serializerCalled ==> offered == Zeros(info.bufferSize)
    ensures !(serializerCalled && serializeOk) ==> r.Err? && store.View() == old(store.View())
    ensures r.Ok? ==> GetValidatedSavePath(info, old(store.View())) == Ok(r.value)
    ensures r.Ok? ==> store.files == (old(store.files) - {TempPath(r.value)})[r.value := serialized]
    ensures r.Ok? && Fs.Tree(old(store.View())) ==>
      store.dirs == old(store.dirs) + Fs.Ancestors(PathRules.Parent(r.value))
  {
    serializerCalled, offered := false, [];
    if info.bufferSize == 0 {
      return Err("Save state buffer size cannot be zero"), serializerCalled, offered;
    }
    if info.bufferSize > MaxSaveStateBytes() {
      return Err("Save state size exceeds maximum allowed size"), serializerCalled, offered;
    }
    var data := Zeros(info.bufferSize);
    offered := data;
    serializerCalled := true;
    if !serializeOk {
      return Err("Core failed to serialize save state"), serializerCalled, offered;
    }
    data := serialized;
    var savePath := GetValidatedSavePath(info, store.View());
    if savePath.Err? {
      return Err(savePath.msg), serializerCalled, offered;
    }
    r := StoreSaveState(store, savePath.value, data, refused);
  }

  /**
   * The writing half of `create_save_state`: the slot's directory is
   * created with `create_dir_all` (a failure may leave directories above it
   * made), the state written to the temporary file, which is renamed onto
   * the slot (and removed when that fails), and the slot's size checked.
   */
  method StoreSaveState(store: Fs.FileStore, path: string, data: seq<byte>, refused: set<string>)
    returns (r: Result<string>)
    modifies store
    ensures var (made, after) := Fs.CreateAll(old(store.View()), PathRules.Parent(path), refused);
      store.dirs == after.dirs
      && (made.Err? ==> r == Err("Failed to create save directory") && store.files == old(store.files))
    ensures r.Ok? ==> r.value == path
    ensures r.Ok? ==> store.files == (old(store.files) - {TempPath(path)})[path := data]
    ensures Fs.Tree(old(store.View())) && r.Ok? ==>
      store.dirs == old(store.dirs) + Fs.Ancestors(PathRules.Parent(path))
    ensures Fs.Tree(old(store.View())) && (exists a :: a in Fs.Ancestors(PathRules.Parent(path)) && a in old(store.files))
      ==> r.Err?
  {
    var parent := PathRules.Parent(path);
    ghost var before := store.View();
    Fs.CreateAllTree(before, parent, refused);
    var made := store.CreateDirAll(parent, refused);
    ghost var dirsMade := store.dirs;
    assert Fs.Tree(before) && made.Ok? ==> dirsMade == before.dirs + Fs.Ancestors(parent);
    if made.Err? {
      return Err("Failed to create save directory");
    }
    var temp := TempPath(path);
    var wrote := store.Write(temp, data);
    if wrote.Err? {
      return Err("Failed to write save state to temporary file");
    }
    var renamed := store.Rename(temp, path);
    if renamed.Err? {
      var _ := store.RemoveFile(temp);
      return Err("Failed to finalize save state file");
    }
    if path !in store.files || |store.files[path]| != |data| {
      return Err("Save state file size mismatch");
    }
    r := Ok(path);
  }

  /**
   * `load_save_state`. When the slot file holds between 1 byte and
   * `bufferSize` bytes (and at most 100 MiB), the deserializer receives those
   * bytes padded with zeros to `bufferSize`, together with the file's own
   * length, and its answer decides the result.
   */
  method LoadSaveState(info: SaveInfo, store: Fs.FileStore, deserializeOk: bool)
    returns (r: Result<Unit>, sent: Option<(seq<byte>, nat)>)
    ensures sent.Some? <==> ReadableState(info, store.View())
    ensures sent.Some? ==> var content := store.files[GetValidatedSavePath(info, store.View()).value];
      sent.value == (content + Zeros(info.bufferSize - |content|), |content|)
    ensures r.Ok? <==> sent.Some? && deserializeOk
  {
    sent := None;
    var savePath := GetValidatedSavePath(info, store.View());
    if savePath.Err? {
      return Err(savePath.msg), sent;
    }
    var path := savePath.value;
    if !store.View().Exists(path) {
      return Err("Save state file does not exist"), sent;
    }
    var fileSize := Validation.ValidateFileSize(path, MAX_SAVE_STATE_SIZE_MB, store.View());
    if fileSize.Err? {
      return Err(fileSize.msg), sent;
    }
    var read := store.Read(path);
    if read.Err? {
      return Err("Failed to read save state file"), sent;
    }
    var data := read.value;
    var actualSize := |data|;
    if actualSize != fileSize.value {
      return Err("Save state file size inconsistency"), sent;
    }
    if actualSize > info.bufferSize {
      return Err("Save state file size exceeds core buffer size"), sent;
    }
    if actualSize < info.bufferSize {
      data := data + Zeros(info.bufferSize - actualSize);
    } else {
      assert data + Zeros(0) == data;
    }
    sent := Some((data, actualSize));
    if !deserializeOk {
      return Err("Core failed to deserialize save state"), sent;
    }
    r := Ok(Unit);
  }

  /** The slot file exists and its size suits both the 100 MiB limit and the core's buffer. */
  predicate ReadableState(info: SaveInfo, fs: Fs.Snapshot)
  {
    var p := GetValidatedSavePath(info, fs);
    p.Ok? && fs.IsFile(p.value) && 0 < |fs.files[p.value]| <= MaxSaveStateBytes()
    && |fs.files[p.value]| <= info.bufferSize
  }
}
