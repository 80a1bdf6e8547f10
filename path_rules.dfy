/**
 * The parts of Rust's `std::path` the model relies on, for Unix paths
 * ('/' is the only separator): `file_name`, `extension`, `file_prefix`,
 * `parent`, `PathBuf::push` and `with_extension`.
 */
module PathRules {
  import opened Wrappers
  import Text

  /** The components that `Path::components` reports as names: empty pieces and "." are dropped. */
  function NamedParts(pieces: seq<string>): (r: seq<string>)
    ensures forall k :: 0 <= k < |r| ==> r[k] != "" && r[k] != "."
  {
    if pieces == [] then []
    else
      var rest := NamedParts(pieces[1..]);
      if pieces[0] == "" || pieces[0] == "." then rest else [pieces[0]] + rest
  }

  function Parts(p: string): seq<string>
  {
    NamedParts(Text.Split(p, '/'))
  }

  /** `Path::file_name`: the last named component, or None when there is none or it is "..". */
  function FileName(p: string): Option<string>
  {
    var parts := Parts(p);
    if parts == [] || parts[|parts| - 1] == ".." then None else Some(parts[|parts| - 1])
  }

  /** Index of the last occurrence of `c` in `s`, if any. */
  function LastIndexOf(s: string, c: char): (r: Option<nat>)
    ensures r.Some? ==> r.value < |s| && s[r.value] == c && c !in s[r.value + 1..]
    ensures r.None? ==> c !in s
  {
    if s == [] then None
    else if s[|s| - 1] == c then Some(|s| - 1)
    else
      var r := LastIndexOf(s[..|s| - 1], c);
      assert s == s[..|s| - 1] + [s[|s| - 1]];
      r
  }

  /** Index of the first occurrence of `c` in `s`, if any. */
  function FirstIndexOf(s: string, c: char): (r: Option<nat>)
    ensures r.Some? ==> r.value < |s| && s[r.value] == c && c !in s[..r.value]
    ensures r.None? ==> c !in s
  {
    if s == [] then None
    else if s[0] == c then Some(0)
    else
      var r := FirstIndexOf(s[1..], c);
      if r.None? then None else Some(r.value + 1)
  }

  /**
   * The extension of a file name, as `Path::extension` derives it: the text
   * after the last '.', unless there is no '.' or the name before it is empty.
   */
  function NameExtension(f: string): Option<string>
  {
    if f == ".." then None
    else match LastIndexOf(f, '.')
      case None => None
      case Some(i) => if i == 0 then None else Some(f[i + 1..])
  }

  /** `Path::extension`. */
  function Extension(p: string): Option<string>
  {
    match FileName(p)
    case None => None
    case Some(f) => NameExtension(f)
  }

  /** `Path::file_prefix`: the file name up to its first '.' that is not the leading character. */
  function FilePrefix(p: string): Option<string>
  {
    match FileName(p)
    case None => None
    case Some(f) =>
      if f == ".." || |f| == 0 then Some(f)
      else match FirstIndexOf(f[1..], '.')
        case None => Some(f)
        case Some(i) => Some(f[..i + 1])
  }

  /** An extension never contains a dot. */
  lemma NameExtensionHasNoDot(f: string)
    ensures NameExtension(f).Some? ==> '.' !in NameExtension(f).value
  {
  }

  /** A name built as stem + "." + ext, with a non-empty stem and a dot-free ext, has extension ext. */
  lemma NameExtensionOfJoin(stem: string, ext: string)
    requires stem != [] && '.' !in ext && stem + "." + ext != ".."
    ensures NameExtension(stem + "." + ext) == Some(ext)
  {
    var f := stem + "." + ext;
    LastIndexOfSuffix(stem, '.', ext);
    assert f[|stem| + 1..] == ext;
  }

  /** The last `c` of `stem + [c] + tail` is the one after the stem when the tail has none. */
  lemma {:induction false} LastIndexOfSuffix(stem: string, c: char, tail: string)
    requires c !in tail
    ensures LastIndexOf(stem + [c] + tail, c) == Some(|stem|)
    decreases |tail|
  {
    var f := stem + [c] + tail;
    if tail == [] {
      assert f[|f| - 1] == c;
    } else {
      var g := stem + [c] + tail[..|tail| - 1];
      assert f[..|f| - 1] == g;
      assert f[|f| - 1] == tail[|tail| - 1];
      LastIndexOfSuffix(stem, c, tail[..|tail| - 1]);
    }
  }

  /**
   * `Path::parent` for a path whose last component is a file name: everything
   * before the last '/', or the empty path when there is none.
   */
  function Parent(p: string): (r: string)
    ensures |r| <= |p|
  {
    match LastIndexOf(p, '/')
    case None => ""
    case Some(i) => if i == 0 then "/" else p[..i]
  }

  /**
   * `PathBuf::push`: an absolute component replaces the path; otherwise it is
   * appended, with a '/' unless the path is empty or already ends in one.
   */
  function Push(base: string, comp: string): string
  {
    if Text.StartsWith(comp, "/") then comp
    else if base == [] || base[|base| - 1] == '/' then base + comp
    else base + "/" + comp
  }

  /** `PathBuf::with_extension(ext)` for a path whose file name has an extension: that extension is swapped. */
  function WithExtension(p: string, ext: string): string
  {
    match Extension(p)
    case Some(e) => if |e| < |p| then p[..|p| - |e|] + ext else p + "." + ext
    case None => p + "." + ext
  }

  /** Pushing a relative component onto a path that does not end in '/' puts exactly one '/' between them. */
  lemma PushRelative(base: string, comp: string)
    requires base != [] && base[|base| - 1] != '/' && !Text.StartsWith(comp, "/")
    ensures Push(base, comp) == base + "/" + comp
  {
  }

  /** The file name of a pushed relative single-component path is that component. */
  lemma {:induction false} FileNameOfPush(base: string, comp: string)
    requires comp != "" && comp != "." && comp != ".." && '/' !in comp
    ensures FileName(base + "/" + comp) == Some(comp)
  {
    SplitAppendPiece(base, comp);
    NamedPartsAppend(Text.Split(base, '/'), comp);
  }

  /** Splitting base + "/" + comp on '/' puts comp alone at the end. */
  lemma {:induction false} SplitAppendPiece(base: string, comp: string)
    requires '/' !in comp
    ensures Text.Split(base + "/" + comp, '/') == Text.Split(base, '/') + [comp]
    decreases |base|
  {
    var s := base + "/" + comp;
    if base == [] {
      assert s == "/" + comp;
      assert s[1..] == comp;
      SplitNoSep(comp);
    } else {
      assert s[1..] == base[1..] + "/" + comp;
      SplitAppendPiece(base[1..], comp);
      if base[0] != '/' {
        var rest := Text.Split(base[1..], '/');
        assert (rest + [comp])[0] == rest[0];
        assert (rest + [comp])[1..] == rest[1..] + [comp];
      }
    }
  }

  /** A string without the separator splits into itself. */
  lemma {:induction false} SplitNoSep(s: string)
    requires '/' !in s
    ensures Text.Split(s, '/') == [s]
  {
    if s != [] {
      SplitNoSep(s[1..]);
      assert [s[0]] + s[1..] == s;
    }
  }

  lemma {:induction false} NamedPartsAppend(pieces: seq<string>, comp: string)
    requires comp != "" && comp != "."
    ensures NamedParts(pieces + [comp]) == NamedParts(pieces) + [comp]
  {
    if pieces == [] {
      assert [] + [comp] == [comp];
    } else {
      assert (pieces + [comp])[1..] == pieces[1..] + [comp];
      NamedPartsAppend(pieces[1..], comp);
    }
  }

  /** A bare name with no '/' is its own file name. */
  lemma FileNameOfBare(f: string)
    requires f != "" && f != "." && f != ".." && '/' !in f
    ensures FileName(f) == Some(f)
  {
    SplitNoSep(f);
    assert NamedParts([f]) == [f] by {
      assert [f][1..] == [];
    }
  }
}
