/** Reading a core's `.info` file: one `key = "value"` line at a time. */
module InfoReader {
  import opened Wrappers
  import Text
  import PathRules
  import opened InfoModel

  /** `str::split_once(c)`: the text before and after the first `c`. */
  function SplitOnce(line: string, c: char): (r: Option<(string, string)>)
    ensures r.None? <==> c !in line
    ensures r.Some? ==> r.value.0 + [c] + r.value.1 == line && c !in r.value.0
  {
    match PathRules.FirstIndexOf(line, c)
    case None => None
    case Some(i) =>
      assert line[..i] + [c] + line[i + 1..] == line;
      Some((line[..i], line[i + 1..]))
  }

  /** The value as `set_info_value` cleans it: outer quotes trimmed, then the first space and the first quote removed. */
  function CleanValue(v: string): string
  {
    Text.ReplaceFirst(Text.ReplaceFirst(Text.TrimMatches(v, '"'), " ", ""), "\"", "")
  }

  /**
   * `set_info_value`: a line with an '=' sets the field named by the trimmed
   * text before its first '=' to the cleaned text after it; any other line
   * changes nothing.
   */
  function SetInfoValue(line: string, info: CoreInfo): (r: CoreInfo)
    ensures '=' !in line ==> r == info
    ensures r.fileName == info.fileName && r.path == info.path && r.isInstalled == info.isInstalled
    ensures r.requiredHwApi == info.requiredHwApi && r.isExperimental == info.isExperimental
  {
    match SplitOnce(line, '=')
    case None => info
    case Some((key, value)) => SetValue(info, Text.Trim(key), CleanValue(value))
  }

  /** A line `key=value` whose key has no '=' sets the trimmed key to the cleaned value. */
  lemma SetInfoValueAt(info: CoreInfo, key: string, value: string)
    requires '=' !in key
    ensures SetInfoValue(key + "=" + value, info) == SetValue(info, Text.Trim(key), CleanValue(value))
  {
    SplitOnceAt(key, value);
  }

  /** The split of `key + "=" + value` gives back `key` and `value` when `key` has no '='. */
  lemma SplitOnceAt(key: string, value: string)
    requires '=' !in key
    ensures SplitOnce(key + "=" + value, '=') == Some((key, value))
  {
    var line := key + "=" + value;
    FirstIndexAfterKey(key, value);
    assert line[..|key|] == key && line[|key| + 1..] == value;
  }

  /** The line `corename = "Snes9x"` sets the core name to Snes9x. */
  lemma SetInfoValueExample(info: CoreInfo)
    ensures TextOf(SetInfoValue("corename = \"Snes9x\"", info), CoreName) == "Snes9x"
  {
    ExampleLine(info);
    CoreNameKey();
  }

  lemma ExampleLine(info: CoreInfo)
    ensures SetInfoValue("corename = \"Snes9x\"", info) == SetValue(info, "corename", "Snes9x")
  {
    var key, value := "corename ", " \"Snes9x\"";
    assert "corename = \"Snes9x\"" == key + "=" + value;
    SetInfoValueAt(info, key, value);
    TrimExample();
    CleanExample();
  }

  lemma CoreNameKey()
    ensures FieldOf("corename") == Some(Text(CoreName))
  {
    assert KEYS[3] == ("corename", Text(CoreName));
    assert KEYS[0].0 != "corename" && KEYS[1].0 != "corename" && KEYS[2].0 != "corename";
    LookupAt(KEYS, 3);
  }

  lemma TrimExample()
    ensures Text.Trim("corename ") == "corename"
  {
    var s := "corename ";
    assert s[0] == 'c' && !Text.IsWhitespace('c');
    assert Text.TrimStartBy(s, Text.IsWhitespace) == s;
    assert s[8] == ' ' && Text.IsWhitespace(' ') && s[..8] == "corename";
    assert Text.TrimEndBy(s, Text.IsWhitespace) == Text.TrimEndBy("corename", Text.IsWhitespace);
    assert "corename"[7] == 'e' && !Text.IsWhitespace('e');
  }

  lemma CleanExample()
    ensures CleanValue(" \"Snes9x\"") == "Snes9x"
  {
    var v := " \"Snes9x\"";
    assert Text.TrimStartBy(v, ch => ch == '"') == v;
    assert v[..|v| - 1] == " \"Snes9x";
    assert Text.TrimEndBy(v, ch => ch == '"') == " \"Snes9x";
    assert Text.ReplaceFirst(" \"Snes9x", " ", "") == "\"Snes9x";
    assert Text.ReplaceFirst("\"Snes9x", "\"", "") == "Snes9x";
  }

  /** The lines read before the first read error, each applied to the state by `step`, in order. */
  function FoldLines<S>(step: (string, S) -> S, s: S, lines: seq<Option<string>>): S
    decreases |lines|
  {
    if lines == [] || lines[0].None? then s
    else FoldLines(step, step(lines[0].value, s), lines[1..])
  }

  /** A line read after all earlier ones were read is applied last, on top of them. */
  lemma {:induction false} FoldLinesSnoc<S>(step: (string, S) -> S, s: S, lines: seq<Option<string>>, line: string)
    requires forall i :: 0 <= i < |lines| ==> lines[i].Some?
    ensures FoldLines(step, s, lines + [Some(line)]) == step(line, FoldLines(step, s, lines))
    decreases |lines|
  {
    if lines != [] {
      assert (lines + [Some(line)])[1..] == lines[1..] + [Some(line)];
      FoldLinesSnoc(step, step(lines[0].value, s), lines[1..], line);
    }
  }

  /** Nothing after the first read error is applied. */
  lemma {:induction false} FoldLinesStopsAtError<S>(step: (string, S) -> S, s: S, lines: seq<Option<string>>, rest: seq<Option<string>>)
    ensures FoldLines(step, s, lines + [None] + rest) == FoldLines(step, s, lines + [None])
    decreases |lines|
  {
    if lines != [] && lines[0].Some? {
      assert (lines + [None] + rest)[1..] == lines[1..] + [None] + rest;
      assert (lines + [None])[1..] == lines[1..] + [None];
      FoldLinesStopsAtError(step, step(lines[0].value, s), lines[1..], rest);
    } else if lines == [] {
      assert ([] + [None] + rest)[0] == None;
    }
  }

  /** The `.info` lines read before the first read error, applied in order. */
  function ApplyLines(info: CoreInfo, lines: seq<Option<string>>): CoreInfo
  {
    FoldLines(SetInfoValue, info, lines)
  }

  /** Applying lines never touches the file name, path, installed flag, hardware API or experimental flag. */
  lemma {:induction false} ApplyLinesKeepsFixedFields(info: CoreInfo, lines: seq<Option<string>>)
    ensures var r := ApplyLines(info, lines);
      r.fileName == info.fileName && r.path == info.path && r.isInstalled == info.isInstalled
      && r.requiredHwApi == info.requiredHwApi && r.isExperimental == info.isExperimental
    decreases |lines|
  {
    if lines != [] && lines[0].Some? {
      var next := SetInfoValue(lines[0].value, info);
      assert ApplyLines(info, lines) == ApplyLines(next, lines[1..]);
      ApplyLinesKeepsFixedFields(next, lines[1..]);
    }
  }

  /** The last line naming a text field decides that field. */
  lemma LastLineWins(info: CoreInfo, lines: seq<Option<string>>, key: string, value: string, k: TextKey)
    requires forall i :: 0 <= i < |lines| ==> lines[i].Some?
    requires '=' !in key && FieldOf(Text.Trim(key)) == Some(Text(k))
    ensures TextOf(ApplyLines(info, lines + [Some(key + "=" + value)]), k) == CleanValue(value)
  {
    FoldLinesSnoc(SetInfoValue, info, lines, key + "=" + value);
    SetInfoValueAt(ApplyLines(info, lines), key, value);
  }

  /** The first '=' of `key + "=" + value` is the one after `key` when `key` has none. */
  lemma {:induction false} FirstIndexAfterKey(key: string, value: string)
    requires '=' !in key
    ensures PathRules.FirstIndexOf(key + "=" + value, '=') == Some(|key|)
  {
    var line := key + "=" + value;
    if key != [] {
      assert line[1..] == key[1..] + "=" + value;
      FirstIndexAfterKey(key[1..], value);
    }
  }

  /** `set_file_name_info`: the path's file name with every ".info" removed, or an error when the path has none. */
  function FileNameInfo(path: string): (r: Result<string>)
    ensures r.Err? <==> PathRules.FileName(path).None?
    ensures r.Ok? ==> r.value == Text.ReplaceAll(PathRules.FileName(path).value, ".info", "")
    ensures r.Err? ==> r.msg == "File has no file name"
  {
    match PathRules.FileName(path)
    case None => Err("File has no file name")
    case Some(f) => Ok(Text.ReplaceAll(f, ".info", ""))
  }

  /**
   * `read_info_file` / `read_info_file_blocking`: `file` is the outcome of
   * opening the file and its lines, `None` standing for a line whose read
   * failed. Lines up to the first failure are applied in order to a default
   * info whose path is `path`; then the file name is set.
   */
  method ReadInfoFile(path: string, file: Result<seq<Option<string>>>) returns (r: Result<CoreInfo>)
    ensures r.Ok? <==> file.Ok? && PathRules.FileName(path).Some?
    ensures r.Ok? ==> (r.value ==
      ApplyLines(DEFAULT_INFO.(path := path), file.value).(fileName := FileNameInfo(path).value))
    ensures r.Ok? ==> r.value.path == path && r.value.fileName == FileNameInfo(path).value
  {
    if file.Err? {
      return Err(file.msg);
    }
    var lines := file.value;
    var start := DEFAULT_INFO.(path := path);
    var info := start;
    var i := 0;
    while i < |lines| && lines[i].Some?
      invariant 0 <= i <= |lines|
      invariant FoldLines(SetInfoValue, start, lines) == FoldLines(SetInfoValue, info, lines[i..])
    {
      assert lines[i..][1..] == lines[i + 1..];
      var next := SetInfoValue(lines[i].value, info);
      assert FoldLines(SetInfoValue, info, lines[i..]) == FoldLines(SetInfoValue, next, lines[i + 1..]);
      info := next;
      i := i + 1;
    }
    assert FoldLines(SetInfoValue, info, lines[i..]) == info;
    var name := FileNameInfo(path);
    if name.Err? {
      return Err(name.msg);
    }
    ApplyLinesKeepsFixedFields(start, lines);
    r := Ok(info.(fileName := name.value));
  }
}
