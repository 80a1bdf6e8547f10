/**
 * Installing cores from the downloaded `cores.7z` (`cores::installed` and
 * `core_info::install_core`, which share the same rules): the requested
 * names without their library suffix, the selection closure that extracts
 * each requested core once and stops when none is left, and the check for
 * an installed core.
 */
module CoreInstall {
  import opened Wrappers
  import opened Text
  import opened ExtractFiles
  import Fs

  /** `remove_so_extension`: every ".so" removed, then every ".dll". */
  function RemoveSoExtension(name: string): string
  {
    ReplaceAll(ReplaceAll(name, ".so", ""), ".dll", "")
  }

  /** A name part without a dot is kept, so only the extension is affected. */
  lemma RemoveSoExtensionOfStem(stem: string, tail: string)
    requires '.' !in stem
    ensures RemoveSoExtension(stem + tail) == stem + RemoveSoExtension(tail)
  {
    ReplaceAllKeepsPrefix(stem, tail, ".so", "");
    ReplaceAllKeepsPrefix(stem, ReplaceAll(tail, ".so", ""), ".dll", "");
  }

  /** The library suffix of either platform is dropped, and a name without a dot is left as it is. */
  lemma RemoveSoExtensionExamples(stem: string)
    requires '.' !in stem
    ensures RemoveSoExtension(stem + ".so") == stem
    ensures RemoveSoExtension(stem + ".dll") == stem
    ensures RemoveSoExtension(stem) == stem
  {
    RemoveSoExtensionOfStem(stem, ".so");
    RemoveSoExtensionOfStem(stem, ".dll");
    RemoveSoExtensionOfStem(stem, "");
    assert stem + "" == stem;
    assert ReplaceAll(".dll", ".so", "") == ".dll" by {
      assert ".dll"[..3] != ".so" && ".dll"[1..] == "dll";
      assert "dll"[..3] != ".so" && "dll"[1..] == "ll";
      assert ReplaceAll("ll", ".so", "") == "ll";
      assert ReplaceAll("dll", ".so", "") == "dll";
    }
  }

  /** The `wanted` set `install_core` starts from. */
  function Wanted(names: seq<string>): set<string>
  {
    set k | 0 <= k < |names| :: RemoveSoExtension(names[k])
  }

  /**
   * The `before_extraction` closure of `install_core`, with `wanted` as its
   * state: a wanted name is extracted and leaves the set; any other name
   * stops the extraction once nothing is wanted and is skipped before that;
   * download events are skipped.
   */
  function Select(wanted: set<string>, p: FileProgress): (r: (set<string>, Action))
    ensures r.0 <= wanted
    ensures r.1 == Extract <==> p.Extracting? && RemoveSoExtension(p.name) in wanted
    ensures r.1 == Extract ==> r.0 == wanted - {RemoveSoExtension(p.name)}
    ensures r.1 != Extract ==> r.0 == wanted
    ensures r.1 == Stop <==> p.Extracting? && RemoveSoExtension(p.name) !in wanted && wanted == {}
  {
    match p
    case Extracting(name) =>
      var name' := RemoveSoExtension(name);
      if name' in wanted then (wanted - {name'}, Extract)
      else if wanted == {} then (wanted, Stop)
      else (wanted, Jump)
    case Download(_, _) => (wanted, Jump)
  }

  /**
   * `install_core`: extracts from the entries of `cores.7z` into the cores
   * directory with `Select`, starting from the normalised requested names.
   * The final wanted set and the offered names are returned.
   */
  method InstallCore(fs: Fs.FileStore, coresDir: string, names: seq<string>, entries: seq<Entry>)
    returns (left: set<string>, offered: seq<string>, actions: seq<Action>)
    modifies fs
    ensures fs.dirs == old(fs.dirs)
    ensures var w := Walk(Start(Wanted(names), old(fs.files)), entries, coresDir, old(fs.dirs), Select);
      fs.files == w.files && left == w.state && offered == w.offered && actions == w.actions
  {
    var wanted := set k | 0 <= k < |names| :: RemoveSoExtension(names[k]);
    left, offered, actions := Extract7zipFile(fs, entries, coresDir, Select, wanted);
  }

  /** The normalised names of the entries that were extracted, in order. */
  function ExtractedNames(offered: seq<string>, actions: seq<Action>): seq<string>
    requires |offered| == |actions|
    decreases |offered|
  {
    if offered == [] then []
    else
      var n := |offered| - 1;
      ExtractedNames(offered[..n], actions[..n]) + (if actions[n] == Extract then [RemoveSoExtension(offered[n])] else [])
  }

  /**
   * What holds of an installation run against the initial wanted set `w`:
   * the set only shrinks, the extracted names are distinct, each was wanted,
   * and none of them is still wanted.
   */
  ghost predicate Installing(r: Run<set<string>>, w: set<string>)
  {
    |r.offered| == |r.actions|
    && r.state <= w
    && var ex := ExtractedNames(r.offered, r.actions);
    (forall i, j :: 0 <= i < j < |ex| ==> ex[i] != ex[j])
    && (forall i :: 0 <= i < |ex| ==> ex[i] in w && ex[i] !in r.state)
  }

  lemma ExtractedSnoc(offered: seq<string>, actions: seq<Action>, f: string, a: Action)
    requires |offered| == |actions|
    ensures ExtractedNames(offered + [f], actions + [a])
      == ExtractedNames(offered, actions) + (if a == Extract then [RemoveSoExtension(f)] else [])
  {
    assert (offered + [f])[..|offered|] == offered;
    assert (actions + [a])[..|actions|] == actions;
  }

  /** One entry keeps the installation invariant. */
  lemma StepInstalling(r: Run<set<string>>, e: Entry, dest: string, dirs: set<string>, w: set<string>)
    requires Installing(r, w)
    ensures Installing(StepEntry(r, e, dest, dirs, Select), w)
  {
    if !e.isDir && PathRules.FileName(e.name).Some? {
      var base := PathRules.FileName(e.name).value;
      var final := FinalName(base, Count(r.used, base));
      var n := StepEntry(r, e, dest, dirs, Select);
      assert n.offered == r.offered + [final] && n.actions == r.actions + [Select(r.state, Extracting(final)).1]
        && n.state == Select(r.state, Extracting(final)).0;
      OfferInstalling(r, n, final, w);
    }
  }

  /** Offering one more name to `Select` keeps the installation invariant. */
  lemma OfferInstalling(r: Run<set<string>>, n: Run<set<string>>, final: string, w: set<string>)
    requires Installing(r, w)
    requires n.offered == r.offered + [final] && n.actions == r.actions + [Select(r.state, Extracting(final)).1]
    requires n.state == Select(r.state, Extracting(final)).0
    ensures Installing(n, w)
  {
    ExtractedSnoc(r.offered, r.actions, final, Select(r.state, Extracting(final)).1);
  }

  /** Over a whole extraction, each wanted core is extracted at most once, and nothing unwanted is. */
  lemma {:induction false} WalkInstalling(r: Run<set<string>>, entries: seq<Entry>, dest: string, dirs: set<string>,
                                          w: set<string>)
    requires Installing(r, w)
    ensures Installing(Walk(r, entries, dest, dirs, Select), w)
    decreases |entries|
  {
    if entries != [] && !r.stopped {
      StepInstalling(r, entries[0], dest, dirs, w);
      WalkInstalling(StepEntry(r, entries[0], dest, dirs, Select), entries[1..], dest, dirs, w);
    }
  }

  /** A fresh installation starts in the invariant, so every run of `InstallCore` ends in it. */
  lemma InstallCoreExtractsOnce(names: seq<string>, files: map<string, seq<byte>>, entries: seq<Entry>,
                                dest: string, dirs: set<string>)
    ensures Installing(Walk(Start(Wanted(names), files), entries, dest, dirs, Select), Wanted(names))
  {
    WalkInstalling(Start(Wanted(names), files), entries, dest, dirs, Wanted(names));
  }

  // --------------------------------------------------- this_core_is_installed

  /** A directory entry of the cores directory: its name when it is valid Unicode, and whether it is a regular file. */
  datatype DirItem = DirItem(name: Option<string>, isFile: Result<bool>)

  /**
   * The loop of `this_core_is_installed`: an entry error or a metadata
   * error is returned, entries with names that are not valid Unicode are
   * skipped, and the first regular file whose name contains the query
   * answers true.
   */
  function Installed(items: seq<Result<DirItem>>, query: string): Result<bool>
    decreases |items|
  {
    if items == [] then Ok(false)
    else match items[0]
      case Err(m) => Err(m)
      case Ok(item) =>
        if item.name.None? then Installed(items[1..], query)
        else match item.isFile
          case Err(m) => Err(m)
          case Ok(isFile) =>
            if isFile && Contains(item.name.value, query) then Ok(true) else Installed(items[1..], query)
  }

  /** `this_core_is_installed` over the listing of the cores directory. */
  method ThisCoreIsInstalled(listing: Result<seq<Result<DirItem>>>, query: string) returns (r: Result<bool>)
    ensures listing.Err? ==> r == Err(listing.msg)
    ensures listing.Ok? ==> r == Installed(listing.value, query)
  {
    var items :- listing;
    var i := 0;
    assert items[i..] == items;
    while i < |items|
      invariant 0 <= i <= |items|
      invariant Installed(items, query) == Installed(items[i..], query)
    {
      assert items[i..][0] == items[i] && items[i..][1..] == items[i + 1..];
      var entry :- items[i];
      if entry.name.None? {
        i := i + 1;
        continue;
      }
      var isFile :- entry.isFile;
      if isFile && Contains(entry.name.value, query) {
        return Ok(true);
      }
      i := i + 1;
    }
    assert items[i..] == [];
    r := Ok(false);
  }

  /** The entries can be read with their metadata. */
  ghost predicate Readable(items: seq<Result<DirItem>>)
  {
    forall k :: 0 <= k < |items| ==> items[k].Ok? && items[k].value.isFile.Ok?
  }

  /** With a readable directory the answer is true exactly when some regular file's name contains the query. */
  lemma {:induction false} InstalledIff(items: seq<Result<DirItem>>, query: string)
    requires Readable(items)
    ensures Installed(items, query) == Ok(exists k :: (0 <= k < |items| && items[k].value.name.Some?
      && items[k].value.isFile.value && Contains(items[k].value.name.value, query)))
    decreases |items|
  {
    if items != [] {
      assert Readable(items[1..]) by {
        assert forall k :: 0 <= k < |items| - 1 ==> items[1..][k] == items[k + 1];
      }
      InstalledIff(items[1..], query);
      assert forall k :: 1 <= k < |items| ==> items[k] == items[1..][k - 1];
    }
  }
}
