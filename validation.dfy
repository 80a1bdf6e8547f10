/**
 * Input checks shared by the emulation core: paths, ROM extensions, sizes,
 * C strings, controller ports, sample rates and save slots.
 */
module Validation {
  import opened Wrappers
  import Ints
  import Text
  import Utf8
  import PathRules
  import Fs

  const MAX_PATH_BYTES: nat := 4096
  const MAX_C_STRING_BYTES: nat := 65535
  const MIB: nat := 1024 * 1024

  /** A `*const c_char` as the model sees it: null, or the bytes before its terminating NUL. */
  datatype CPtr = Null | At(bytes: seq<byte>)

  // ------------------------------------------------------------- traversal

  /** The substrings a path may not contain, in the order they are tried. */
  const DANGEROUS_PATTERNS: seq<string> := ["..", "//", "\\\\", "..\\", "../", "\\..", "/."]

  /** The first pattern of `patterns` that occurs in `p`, if any. */
  function FirstDangerous(p: string, patterns: seq<string>): (r: Option<string>)
    ensures r.Some? ==> r.value in patterns && Text.Contains(p, r.value)
    ensures r.None? ==> forall k :: 0 <= k < |patterns| ==> !Text.Contains(p, patterns[k])
  {
    if patterns == [] then None
    else if Text.Contains(p, patterns[0]) then Some(patterns[0])
    else FirstDangerous(p, patterns[1..])
  }

  /** `check_path_traversal`. */
  function CheckPathTraversal(p: string): Result<Unit>
  {
    match FirstDangerous(p, DANGEROUS_PATTERNS)
    case Some(_) => Err("Path contains potentially dangerous pattern")
    case None => Ok(Unit)
  }

  /**
   * Three of the seven patterns contain "..", so the check amounts to four
   * substrings: a path passes exactly when it has no "..", "//", "\\\\" or "/.".
   */
  lemma CheckPathTraversalOk(p: string)
    ensures CheckPathTraversal(p).Ok? <==>
      !Text.Contains(p, "..") && !Text.Contains(p, "//") && !Text.Contains(p, "\\\\") && !Text.Contains(p, "/.")
  {
    var d := DANGEROUS_PATTERNS;
    assert d[0] == ".." && d[1] == "//" && d[2] == "\\\\" && d[6] == "/.";
    if Text.Contains(p, d[3]) { Text.ContainsInfix(p, d[3], 0, 2); assert d[3][0..2] == ".."; }
    if Text.Contains(p, d[4]) { Text.ContainsInfix(p, d[4], 0, 2); assert d[4][0..2] == ".."; }
    if Text.Contains(p, d[5]) { Text.ContainsInfix(p, d[5], 1, 3); assert d[5][1..3] == ".."; }
    var found := FirstDangerous(p, d);
    if found.Some? {
      var k :| 0 <= k < |d| && d[k] == found.value;
    }
  }

  /** The three inputs rejected by the source's own traversal test. */
  lemma TraversalExamples()
    ensures CheckPathTraversal("../../../etc/passwd").Err?
    ensures CheckPathTraversal("test/../../../etc/passwd").Err?
    ensures CheckPathTraversal("..\\..\\windows\\system32").Err?
  {
    assert Text.StartsWith("../../../etc/passwd", "..");
    var t := "test/../../../etc/passwd";
    assert Text.StartsWith(t[5..], "..");
    Text.ContainsAtOffset(t, 5, "..");
    assert Text.StartsWith("..\\..\\windows\\system32", "..");
  }

  // ------------------------------------------------------------ path checks

  /** The checks both path validators make before touching the filesystem. */
  function PathPrechecks(path: string): Result<Unit>
  {
    if path == [] then Err("path cannot be empty")
    else if '\0' in path then Err("path contains null bytes")
    else if Text.Utf8Len(path) > MAX_PATH_BYTES then Err("path is too long (max 4096 characters)")
    else CheckPathTraversal(path)
  }

  /** `validate_file_path`: the path must pass the prechecks and name an existing regular file. */
  function ValidateFilePath(path: string, fs: Fs.Snapshot): (r: Result<string>)
    ensures r.Ok? <==> PathPrechecks(path).Ok? && fs.IsFile(path)
    ensures r.Ok? ==> r.value == path
  {
    var _ :- PathPrechecks(path);
    if !fs.Exists(path) then Err("Invalid file path")
    else if !fs.IsFile(path) then Err("Path is not a file")
    else Ok(path)
  }

  /** A missing directory cannot be made when its parent exists and is not a directory. */
  predicate ParentBlocks(path: string, fs: Fs.Snapshot)
  {
    var parent := PathRules.Parent(path);
    parent != "" && fs.Exists(parent) && !fs.IsDir(parent)
  }

  /**
   * `validate_directory_path`: the path must pass the prechecks; a missing
   * path is accepted unless its parent exists and is not a directory.
   */
  function ValidateDirectoryPath(path: string, fs: Fs.Snapshot): (r: Result<string>)
    ensures r.Ok? <==> (PathPrechecks(path).Ok? && (fs.Exists(path) || !ParentBlocks(path, fs)))
    ensures r.Ok? ==> r.value == path
  {
    var _ :- PathPrechecks(path);
    if fs.Exists(path) then Ok(path)
    else
      var parent := PathRules.Parent(path);
      if parent != "" && fs.Exists(parent) && !fs.IsDir(parent) then
        Err("Parent path exists but is not a directory")
      else Ok(path)
  }

  // ------------------------------------------------------------- extensions

  /** One entry of the extension list, trimmed and lower-cased. */
  function ListEntry(piece: string): string
  {
    Text.Lower(Text.Trim(piece))
  }

  /** The accepted extensions of a '|'-separated list. */
  function ExtensionList(validExtensions: string): (r: seq<string>)
    ensures |r| == |Text.Split(validExtensions, '|')|
    ensures forall k :: 0 <= k < |r| ==> r[k] == ListEntry(Text.Split(validExtensions, '|')[k])
  {
    var pieces := Text.Split(validExtensions, '|');
    seq(|pieces|, k requires 0 <= k < |pieces| => ListEntry(pieces[k]))
  }

  /** `validate_rom_extension`. */
  function ValidateRomExtension(path: string, validExtensions: string): Result<Unit>
  {
    match PathRules.Extension(path)
    case None => Err("File has no extension")
    case Some(e) =>
      if Text.Lower(e) in ExtensionList(validExtensions) then Ok(Unit)
      else Err("Invalid ROM extension")
  }

  /** Some piece of the '|'-separated list, trimmed and lower-cased, is `e`. */
  predicate Listed(validExtensions: string, e: string)
  {
    var pieces := Text.Split(validExtensions, '|');
    exists k :: 0 <= k < |pieces| && ListEntry(pieces[k]) == e
  }

  /**
   * A path is accepted exactly when it has an extension that, lower-cased,
   * equals some entry of the list after trimming and lower-casing.
   */
  lemma ValidateRomExtensionOk(path: string, validExtensions: string)
    ensures ValidateRomExtension(path, validExtensions).Ok? <==>
      PathRules.Extension(path).Some? && Listed(validExtensions, Text.Lower(PathRules.Extension(path).value))
  {
    var pieces := Text.Split(validExtensions, '|');
    var l := ExtensionList(validExtensions);
    if PathRules.Extension(path).Some? {
      var e := Text.Lower(PathRules.Extension(path).value);
      if e in l {
        var k :| 0 <= k < |l| && l[k] == e;
        assert ListEntry(pieces[k]) == e;
      }
      if Listed(validExtensions, e) {
        var k :| 0 <= k < |pieces| && ListEntry(pieces[k]) == e;
        assert l[k] == e;
      }
    }
  }

  // ------------------------------------------------------------------ sizes

  /**
   * `validate_file_size`: the file's length, when it is at most `maxSizeMb`
   * MiB and not zero. Only regular files have a length in this model.
   */
  function ValidateFileSize(path: string, maxSizeMb: nat, fs: Fs.Snapshot): (r: Result<nat>)
    ensures r.Ok? <==> fs.IsFile(path) && 0 < |fs.files[path]| <= maxSizeMb * MIB
    ensures r.Ok? ==> r.value == |fs.files[path]|
  {
    if !fs.IsFile(path) then Err("Cannot read file metadata")
    else
      var size := |fs.files[path]|;
      if size > maxSizeMb * MIB then Err("File size exceeds maximum allowed size")
      else if size == 0 then Err("File is empty")
      else Ok(size)
  }

  /** `validate_buffer_size`. */
  function ValidateBufferSize(size: nat, maxSize: nat): (r: Result<Unit>)
    ensures r.Ok? <==> 0 < size <= maxSize
  {
    if size == 0 then Err("Buffer size cannot be zero")
    else if size > maxSize then Err("Buffer size exceeds maximum allowed size")
    else Ok(Unit)
  }

  // -------------------------------------------------------------- C strings

  /** `create_safe_c_string`: the NUL-terminated bytes of a non-empty string of at most 65535 bytes. */
  function CreateSafeCString(s: string): (r: Result<CPtr>)
    ensures r.Ok? <==> s != [] && Text.Utf8Len(s) <= MAX_C_STRING_BYTES && '\0' !in s
    ensures r.Ok? ==> r.value == At(Utf8.Encode(s))
  {
    if s == [] then Err("Cannot create C string from empty string")
    else if Text.Utf8Len(s) > MAX_C_STRING_BYTES then Err("String too long for C string conversion")
    else if '\0' in s then Err("Failed to create C string")
    else Ok(At(Utf8.Encode(s)))
  }

  /** `read_safe_c_string`: the string a C pointer holds, at most `maxLen` bytes of valid UTF-8. */
  function ReadSafeCString(p: CPtr, maxLen: nat): (r: Result<string>)
    ensures r.Ok? <==> p.At? && |p.bytes| <= maxLen && Utf8.Decode(p.bytes).Some?
    ensures r.Ok? ==> r.value == Utf8.Decode(p.bytes).value
  {
    match p
    case Null => Err("Cannot read from null pointer")
    case At(bytes) =>
      if |bytes| > maxLen then Err("C string length exceeds maximum allowed length")
      else match Utf8.Decode(bytes)
        case None => Err("Invalid UTF-8 in C string")
        case Some(s) => Ok(s)
  }

  /** A C string made by `CreateSafeCString` reads back as the same string. */
  lemma CStringRoundTrip(s: string, maxLen: nat)
    requires CreateSafeCString(s).Ok? && Text.Utf8Len(s) <= maxLen
    ensures ReadSafeCString(CreateSafeCString(s).value, maxLen) == Ok(s)
  {
    Utf8.EncodeLength(s);
    Utf8.DecodeEncode(s);
  }

  // ----------------------------------------------------- ports, rates, slots

  /** `validate_controller_port`: ports 0 to 7 are accepted and converted to `u16`. */
  function ValidateControllerPort(port: Ints.i16): (r: Result<Ints.u16>)
    ensures r.Ok? <==> 0 <= port <= 7
    ensures r.Ok? ==> r.value == port
  {
    if port <= -1 then Err("Controller port cannot be negative")
    else if port > 7 then Err("Controller port cannot exceed 7")
    else Ok(port)
  }

  /** `validate_sample_rate`. */
  function ValidateSampleRate(sampleRate: Ints.u32): (r: Result<Unit>)
    ensures r.Ok? <==> 8000 <= sampleRate <= 192000
  {
    if 8000 <= sampleRate <= 192000 then Ok(Unit) else Err("Invalid sample rate")
  }

  /** `validate_save_slot`. */
  function ValidateSaveSlot(slot: nat): (r: Result<Unit>)
    ensures r.Ok? <==> slot <= 99
  {
    if slot > 99 then Err("Save slot cannot exceed 99") else Ok(Unit)
  }

  // ---------------------------------------------------------------- logging

  predicate KeptInLog(c: char)
  {
    !Text.IsControl(c) || c == '\n' || c == '\t'
  }

  /** `sanitize_for_logging`: drops control characters other than newline and tab. */
  function SanitizeForLogging(s: string): (r: string)
    ensures forall k :: 0 <= k < |r| ==> KeptInLog(r[k]) && r[k] in s
    ensures |r| <= |s|
  {
    if s == [] then []
    else if KeptInLog(s[0]) then [s[0]] + SanitizeForLogging(s[1..])
    else SanitizeForLogging(s[1..])
  }

  /** A string without such characters is logged unchanged. */
  lemma {:induction false} SanitizeForLoggingKeepsClean(s: string)
    requires forall k :: 0 <= k < |s| ==> KeptInLog(s[k])
    ensures SanitizeForLogging(s) == s
  {
    if s != [] {
      SanitizeForLoggingKeepsClean(s[1..]);
    }
  }

  /** Sanitizing twice is the same as sanitizing once. */
  lemma SanitizeForLoggingIdempotent(s: string)
    ensures SanitizeForLogging(SanitizeForLogging(s)) == SanitizeForLogging(s)
  {
    SanitizeForLoggingKeepsClean(SanitizeForLogging(s));
  }

  /** Sanitizing distributes over concatenation. */
  lemma {:induction false} SanitizeForLoggingAppend(a: string, b: string)
    ensures SanitizeForLogging(a + b) == SanitizeForLogging(a) + SanitizeForLogging(b)
  {
    if a == [] {
      assert a + b == b;
    } else {
      assert (a + b)[1..] == a[1..] + b;
      SanitizeForLoggingAppend(a[1..], b);
    }
  }
}
