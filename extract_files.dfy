/**
 * `tools::extract_files::extract_7zip_file`: the entries of a 7z archive
 * are flattened into one directory, files that share a name are told apart
 * by a counter, and a caller's callback decides for each file whether it
 * is extracted, skipped, or ends the extraction.
 */
module ExtractFiles {
  import opened Wrappers
  import opened Text
  import PathRules
  import Fs

  /** `FileProgress`: a download's progress, or the name a file is about to be extracted as. */
  datatype FileProgress = Download(file: string, progress: real) | Extracting(name: string)

  /** `SevenZipBeforeExtractionAction`. */
  datatype Action = Extract | Jump | Stop

  /** An archive entry as the decompressor hands it over. */
  datatype Entry = Entry(name: string, isDir: bool, data: seq<byte>)

  /** The name given to a file whose base name has been seen `count` times before. */
  function FinalName(base: string, count: nat): string
  {
    if count == 0 then base else Decimal(count) + "_" + base
  }

  /** The first file keeps its name; later ones with the same base name get pairwise distinct names. */
  lemma FinalNameDistinct(base: string, j: nat, k: nat)
    ensures FinalName(base, 0) == base
    ensures FinalName(base, j) == FinalName(base, k) ==> j == k
  {
    if FinalName(base, j) == FinalName(base, k) && j != 0 && k != 0 {
      var dj, dk := Decimal(j), Decimal(k);
      assert |dj| == |dk|;
      assert dj == (dj + "_" + base)[..|dj|];
      assert dk == (dk + "_" + base)[..|dk|];
      DecimalInjective(j, k);
    }
  }

  function Count(used: map<string, nat>, base: string): nat
  {
    if base in used then used[base] else 0
  }

  /**
   * The state of one extraction: the `used_names` counters, the callback's
   * own state, the files on disk, the names offered to the callback with
   * the action it chose for each, and whether extraction has ended.
   */
  datatype Run<S> = Run(used: map<string, nat>, state: S, files: map<string, seq<byte>>,
                        offered: seq<string>, actions: seq<Action>, stopped: bool)

  /**
   * The extract function for one entry. A directory is passed over with
   * nothing counted; an entry without a file name ends the extraction with
   * an error; a file gets its final name, is offered to the callback, and
   * is then skipped, written to `dest/final_name`, or ends the extraction.
   * Creating the file fails, and ends the extraction, where a directory is.
   */
  function StepEntry<S>(r: Run<S>, e: Entry, dest: string, dirs: set<string>,
                        select: (S, FileProgress) -> (S, Action)): Run<S>
  {
    if e.isDir then r
    else match PathRules.FileName(e.name)
      case None => r.(stopped := true)
      case Some(base) =>
        var count := Count(r.used, base);
        var final := FinalName(base, count);
        var (s, action) := select(r.state, Extracting(final));
        var r' := r.(used := r.used[base := count + 1], state := s,
                     offered := r.offered + [final], actions := r.actions + [action]);
        (match action
         case Jump => r'
         case Stop => r'.(stopped := true)
         case Extract =>
           var path := PathRules.Push(dest, final);
           if path in dirs then r'.(stopped := true) else r'.(files := r'.files[path := e.data]))
  }

  /** The entries in archive order until the extraction ends. */
  function Walk<S>(r: Run<S>, entries: seq<Entry>, dest: string, dirs: set<string>,
                   select: (S, FileProgress) -> (S, Action)): Run<S>
    decreases |entries|
  {
    if entries == [] || r.stopped then r
    else Walk(StepEntry(r, entries[0], dest, dirs, select), entries[1..], dest, dirs, select)
  }

  /** The run a fresh extraction starts from. */
  function Start<S>(s: S, files: map<string, seq<byte>>): Run<S>
  {
    Run(map[], s, files, [], [], false)
  }

  /**
   * `extract_7zip_file` over the archive's entries, writing through `fs`.
   * `select` is the `before_extraction` closure, threading its own state
   * from `s0`; the final state and the names offered are returned.
   */
  method Extract7zipFile<S>(fs: Fs.FileStore, entries: seq<Entry>, dest: string,
                            select: (S, FileProgress) -> (S, Action), s0: S)
    returns (s: S, offered: seq<string>, actions: seq<Action>)
    modifies fs
    ensures fs.dirs == old(fs.dirs)
    ensures var w := Walk(Start(s0, old(fs.files)), entries, dest, old(fs.dirs), select);
      fs.files == w.files && s == w.state && offered == w.offered && actions == w.actions
  {
    var usedNames: map<string, nat> := map[];
    s, offered, actions := s0, [], [];
    ghost var dirs := fs.dirs;
    ghost var goal := Walk(Start(s0, fs.files), entries, dest, dirs, select);
    var i := 0;
    assert entries[i..] == entries;
    while i < |entries|
      invariant 0 <= i <= |entries| && fs.dirs == dirs
      invariant goal == Walk(Run(usedNames, s, fs.files, offered, actions, false), entries[i..], dest, dirs, select)
    {
      WalkAdvance(Run(usedNames, s, fs.files, offered, actions, false), entries, i, dest, dirs, select);
      var stopped;
      usedNames, s, offered, actions, stopped := ExtractEntry(fs, entries[i], dest, select, usedNames, s, offered, actions);
      if stopped {
        return;
      }
      i := i + 1;
    }
    assert entries[i..] == [];
  }

  /** The loop body of `extract_7zip_file` for one entry: one `StepEntry` of a running extraction. */
  method ExtractEntry<S>(fs: Fs.FileStore, e: Entry, dest: string, select: (S, FileProgress) -> (S, Action),
                         used0: map<string, nat>, s0: S, offered0: seq<string>, actions0: seq<Action>)
    returns (used: map<string, nat>, s: S, offered: seq<string>, actions: seq<Action>, stopped: bool)
    modifies fs
    ensures fs.dirs == old(fs.dirs)
    ensures StepEntry(Run(used0, s0, old(fs.files), offered0, actions0, false), e, dest, old(fs.dirs), select)
      == Run(used, s, fs.files, offered, actions, stopped)
  {
    used, s, offered, actions, stopped := used0, s0, offered0, actions0, false;
    if e.isDir {
      return;
    }
    var baseName := PathRules.FileName(e.name);
    if baseName.None? {
      stopped := true;
      return;
    }
    var base := baseName.value;
    var count := Count(used, base);
    var finalName := FinalName(base, count);
    used := used[base := count + 1];
    var (s', action) := select(s, Extracting(finalName));
    s, offered, actions := s', offered + [finalName], actions + [action];
    match action {
      case Jump =>
      case Stop =>
        stopped := true;
      case Extract =>
        var path := PathRules.Push(dest, finalName);
        var w := fs.Write(path, e.data);
        stopped := w.Err?;
    }
  }

  /** A running extraction over `entries[i..]` is one step followed by the rest. */
  lemma WalkAdvance<S>(r: Run<S>, entries: seq<Entry>, i: nat, dest: string, dirs: set<string>,
                       select: (S, FileProgress) -> (S, Action))
    requires i < |entries| && !r.stopped
    ensures Walk(r, entries[i..], dest, dirs, select)
      == Walk(StepEntry(r, entries[i], dest, dirs, select), entries[i + 1..], dest, dirs, select)
  {
    assert entries[i..][0] == entries[i] && entries[i..][1..] == entries[i + 1..];
  }

  // ----------------------------------------------------------- properties

  /** A directory entry is neither counted nor offered, and changes nothing. */
  lemma DirectoryPassedOver<S>(r: Run<S>, e: Entry, dest: string, dirs: set<string>,
                               select: (S, FileProgress) -> (S, Action))
    requires e.isDir
    ensures StepEntry(r, e, dest, dirs, select) == r
  {
  }

  /** An ended extraction looks at no further entry. */
  lemma {:induction false} StoppedStaysStopped<S>(r: Run<S>, entries: seq<Entry>, dest: string, dirs: set<string>,
                                                  select: (S, FileProgress) -> (S, Action))
    requires r.stopped
    ensures Walk(r, entries, dest, dirs, select) == r
  {
  }

  /** The file entries of a list that have `base` as their file name. */
  function CountBase(entries: seq<Entry>, base: string): nat
    decreases |entries|
  {
    if entries == [] then 0
    else
      var here: nat := if !entries[0].isDir && PathRules.FileName(entries[0].name) == Some(base) then 1 else 0;
      here + CountBase(entries[1..], base)
  }

  /** The file entries of a list. */
  function CountFiles(entries: seq<Entry>): nat
    decreases |entries|
  {
    if entries == [] then 0
    else (if !entries[0].isDir then 1 else 0) + CountFiles(entries[1..])
  }

  /**
   * Over an extraction that runs to the end, each base name's counter
   * rises by exactly its number of file entries, and the callback is
   * offered exactly one name per file entry.
   */
  lemma {:induction false} WalkCounts<S>(r: Run<S>, entries: seq<Entry>, dest: string, dirs: set<string>,
                                         select: (S, FileProgress) -> (S, Action), base: string)
    requires !Walk(r, entries, dest, dirs, select).stopped
    ensures Count(Walk(r, entries, dest, dirs, select).used, base) == Count(r.used, base) + CountBase(entries, base)
    ensures |Walk(r, entries, dest, dirs, select).offered| == |r.offered| + CountFiles(entries)
    ensures |Walk(r, entries, dest, dirs, select).actions| == |r.actions| + CountFiles(entries)
    decreases |entries|
  {
    if entries != [] {
      var next := StepEntry(r, entries[0], dest, dirs, select);
      assert Walk(r, entries, dest, dirs, select) == Walk(next, entries[1..], dest, dirs, select);
      assert !next.stopped;
      StepCounts(r, entries[0], dest, dirs, select, base);
      WalkCounts(next, entries[1..], dest, dirs, select, base);
    }
  }

  /** One step that does not end the extraction counts and offers the entry when it is a file. */
  lemma StepCounts<S>(r: Run<S>, e: Entry, dest: string, dirs: set<string>,
                      select: (S, FileProgress) -> (S, Action), base: string)
    requires !StepEntry(r, e, dest, dirs, select).stopped
    ensures var n := StepEntry(r, e, dest, dirs, select);
      Count(n.used, base) == Count(r.used, base) + (if !e.isDir && PathRules.FileName(e.name) == Some(base) then 1 else 0)
      && |n.offered| == |r.offered| + (if !e.isDir then 1 else 0)
      && |n.actions| == |r.actions| + (if !e.isDir then 1 else 0)
  {
  }

  /**
   * The k-th file (from 0) with a given base name is offered as
   * `FinalName(base, k)`: one step offers the name for the count so far and
   * raises that count by one.
   */
  lemma StepNames<S>(r: Run<S>, e: Entry, dest: string, dirs: set<string>,
                     select: (S, FileProgress) -> (S, Action), base: string)
    requires !e.isDir && PathRules.FileName(e.name) == Some(base)
    ensures var n := StepEntry(r, e, dest, dirs, select);
      n.offered == r.offered + [FinalName(base, Count(r.used, base))]
      && Count(n.used, base) == Count(r.used, base) + 1
      && forall b :: b != base ==> Count(n.used, b) == Count(r.used, b)
  {
  }

  /**
   * The callback's answer takes effect: Stop ends the extraction, Jump
   * leaves the files alone, and Extract writes the entry's bytes under its
   * final name in `dest`.
   */
  lemma ActionsTakeEffect<S>(r: Run<S>, e: Entry, dest: string, dirs: set<string>,
                             select: (S, FileProgress) -> (S, Action), base: string)
    requires !e.isDir && PathRules.FileName(e.name) == Some(base)
    ensures var final := FinalName(base, Count(r.used, base));
      var (s, action) := select(r.state, Extracting(final));
      var n := StepEntry(r, e, dest, dirs, select);
      n.state == s && n.actions == r.actions + [action]
      && (action == Stop ==> n.stopped && n.files == r.files)
      && (action == Jump ==> n.stopped == r.stopped && n.files == r.files)
      && (action == Extract && PathRules.Push(dest, final) !in dirs ==>
            n.stopped == r.stopped && n.files == r.files[PathRules.Push(dest, final) := e.data])
  {
  }

  /**
   * Two files can still be written under one name: "a" taken twice gives
   * "a" and "1_a", and an entry named "1_a" is then offered as "1_a" too.
   */
  lemma CounterNameCollides()
    ensures FinalName("a", 1) == FinalName("1_a", 0)
  {
    assert Decimal(1) == "1";
  }
}
