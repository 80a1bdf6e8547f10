/**
 * `tools::game_identifier`: which files are taken for ROMs, and the
 * identifier built for one (its path, its name, its CRC and size).
 */
module GameIdentifier {
  import opened Wrappers
  import opened Ints
  import opened Text
  import PathRules

  /** `BLACKLIST_EXTENSIONS`, all in lower case. */
  const BLACKLIST: seq<string> := ["txt", "nfo", "jpg", "jpeg", "png", "gif", "xml", "json", "ini", "cfg",
    "md", "db", "sqlite", "log", "zip", "7z"]

  const INVALID_FILE := "arquivo invalido"
  const NO_ROM_NAME := "Não foi possivel recuperar o nome da rom"

  /** `is_probably_rom`: the path has an extension whose lower-cased form is not blacklisted. */
  predicate IsProbablyRom(path: string)
  {
    match PathRules.Extension(path)
    case None => false
    case Some(ext) => Lower(ext) !in BLACKLIST
  }

  /** Where the first '.' of `stem + "." + ext` sits when the stem has none. */
  lemma FirstDotAfterStem(stem: string, ext: string)
    requires '.' !in stem
    ensures PathRules.FirstIndexOf(stem + "." + ext, '.') == Some(|stem|)
  {
    var f := stem + "." + ext;
    var r := PathRules.FirstIndexOf(f, '.');
    assert f[|stem|] == '.';
    assert forall k :: 0 <= k < |stem| ==> f[k] == stem[k];
  }

  /** A file `dir/stem.ext` (stem and ext free of '/' and '.') has extension ext and file prefix stem. */
  lemma NamedFile(dir: string, stem: string, ext: string)
    requires stem != [] && '.' !in stem && '/' !in stem && '.' !in ext && '/' !in ext
    ensures PathRules.Extension(dir + "/" + stem + "." + ext) == Some(ext)
    ensures PathRules.FilePrefix(dir + "/" + stem + "." + ext) == Some(stem)
  {
    var f := stem + "." + ext;
    assert dir + "/" + stem + "." + ext == dir + "/" + f;
    assert f[0] == stem[0] && stem[0] != '.';
    assert '/' !in f;
    PathRules.FileNameOfPush(dir, f);
    PathRules.NameExtensionOfJoin(stem, ext);
    assert f[1..] == stem[1..] + "." + ext;
    FirstDotAfterStem(stem[1..], ext);
    assert f[..|stem|] == stem;
  }

  /** For such a file the rule is the extension in any letter case against the list. */
  lemma RomByExtension(dir: string, stem: string, ext: string)
    requires stem != [] && '.' !in stem && '/' !in stem && '.' !in ext && '/' !in ext
    ensures IsProbablyRom(dir + "/" + stem + "." + ext) <==> Lower(ext) !in BLACKLIST
  {
    NamedFile(dir, stem, ext);
  }

  /** A blacklisted extension is refused in upper case as well. */
  lemma UpperCaseBlacklisted(dir: string)
    ensures !IsProbablyRom(dir + "/a.PNG")
  {
    RomByExtension(dir, "a", "PNG");
    assert dir + "/" + "a" + "." + "PNG" == dir + "/a.PNG";
    assert Lower("PNG") == "png" == BLACKLIST[4];
  }

  /** A blacklisted extension is refused in mixed case. */
  lemma MixedCaseBlacklisted(dir: string)
    ensures !IsProbablyRom(dir + "/a.Zip")
  {
    RomByExtension(dir, "a", "Zip");
    assert dir + "/" + "a" + "." + "Zip" == dir + "/a.Zip";
    assert Lower("Zip") == "zip" == BLACKLIST[14];
  }

  /** An extension not on the list, such as the test ROM's, is taken. */
  lemma OrdinaryRomTaken(dir: string)
    ensures IsProbablyRom(dir + "/a.nes")
  {
    RomByExtension(dir, "a", "nes");
    assert dir + "/" + "a" + "." + "nes" == dir + "/a.nes";
    assert Lower("nes") == "nes";
  }

  /** A file name without a dot has no extension and is never a ROM. */
  lemma NoExtensionNotRom(dir: string, name: string)
    requires name != [] && name != ".." && '.' !in name && '/' !in name
    ensures !IsProbablyRom(dir + "/" + name)
  {
    PathRules.FileNameOfPush(dir, name);
  }

  /** `GameIdentifier`. */
  datatype Identifier = Identifier(path: string, fileName: string, crc: u32, size: u64)

  /**
   * `GameIdentifier::new`: `probe` stands for opening the file and reading
   * its size and CRC-32, answered as (size, crc) or an error. A path that
   * is not a ROM is refused with no file opened; `touched` lists the files
   * opened.
   */
  method New(path: string, probe: Result<(u64, u32)>) returns (r: Result<Identifier>, touched: seq<string>)
    ensures !IsProbablyRom(path) ==> r == Err(INVALID_FILE) && touched == []
    ensures IsProbablyRom(path) ==> touched == [path]
    ensures IsProbablyRom(path) && probe.Err? ==> r == Err(probe.msg)
    ensures IsProbablyRom(path) && probe.Ok? && PathRules.FilePrefix(path).None? ==> r == Err(NO_ROM_NAME)
    ensures IsProbablyRom(path) && probe.Ok? && PathRules.FilePrefix(path).Some? ==>
      r == Ok(Identifier(path, PathRules.FilePrefix(path).value, probe.value.1, probe.value.0))
  {
    touched := [];
    if !IsProbablyRom(path) {
      return Err(INVALID_FILE), touched;
    }
    touched := [path];
    if probe.Err? {
      return Err(probe.msg), touched;
    }
    var (size, crc) := probe.value;
    var romName := PathRules.FilePrefix(path);
    if romName.None? {
      return Err(NO_ROM_NAME), touched;
    }
    r := Ok(Identifier(path, romName.value, crc, size));
  }

  /** The test ROM, in whatever directory, is named after its file without the extension. */
  lemma TestRomName(dir: string)
    ensures PathRules.FilePrefix(dir + "/240pTestSuite.nes") == Some("240pTestSuite")
  {
    var stem, ext := "240pTestSuite", "nes";
    assert '.' !in stem && '/' !in stem;
    NamedFile(dir, stem, ext);
    TestRomPath(dir);
  }

  lemma TestRomPath(dir: string)
    ensures dir + "/" + "240pTestSuite" + "." + "nes" == dir + "/240pTestSuite.nes"
  {
    var f := "240pTestSuite" + "." + "nes";
    assert f == "240pTestSuite.nes";
    assert dir + "/" + "240pTestSuite" + "." + "nes" == dir + ("/" + f);
    assert "/" + f == "/240pTestSuite.nes";
  }
}
