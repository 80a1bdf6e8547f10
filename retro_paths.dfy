/**
 * The frontend's working directories (`RetroPaths`): nine directories under a
 * base directory, created on first use.
 */
module RetroPaths {
  import opened Wrappers
  import PathRules
  import Fs

  /** The ten strings of a `RetroPaths`. */
  datatype RetroPaths = RetroPaths(
    baseDir: string,
    system: string,
    save: string,
    opt: string,
    assets: string,
    temps: string,
    cores: string,
    infos: string,
    databases: string,
    arts: string)
  {
    /** The directories, in the order `RetroPaths::new` creates them. */
    function Dirs(): seq<string>
    {
      [system, save, opt, assets, temps, cores, infos, databases, arts]
    }
  }

  const DIR_NAMES: seq<string> := ["system", "save", "opt", "assets", "temps", "cores", "infos", "databases", "arts"]

  /** The `PartialEq` of `RetroPaths`: two values are equal when their assets and system paths agree. */
  predicate Same(a: RetroPaths, b: RetroPaths)
  {
    b.assets == a.assets && b.system == a.system
  }

  /** `Same` is reflexive, symmetric and transitive, so `==` on `RetroPaths` is sound for `Eq`. */
  lemma SameIsEquivalence(a: RetroPaths, b: RetroPaths, c: RetroPaths)
    ensures Same(a, a)
    ensures Same(a, b) ==> Same(b, a)
    ensures Same(a, b) && Same(b, c) ==> Same(a, c)
  {
  }

  /** Values that differ only outside assets and system compare equal. */
  lemma SameIgnoresOtherFields(a: RetroPaths, save: string, cores: string)
    ensures Same(a, a.(save := save, cores := cores, baseDir := save))
  {
  }

  /** The paths `from_base` derives: each directory is the base, a '/', and its name. */
  function Layout(base: string): (p: RetroPaths)
    ensures p.baseDir == base
    ensures |p.Dirs()| == |DIR_NAMES|
    ensures forall k :: 0 <= k < |DIR_NAMES| ==> p.Dirs()[k] == base + "/" + DIR_NAMES[k]
  {
    RetroPaths(base, base + "/system", base + "/save", base + "/opt", base + "/assets",
      base + "/temps", base + "/cores", base + "/infos", base + "/databases", base + "/arts")
  }

  /** Distinct names under one base give distinct directories. */
  lemma LayoutDistinct(base: string, i: nat, j: nat)
    requires i < j < |DIR_NAMES|
    ensures Layout(base).Dirs()[i] != Layout(base).Dirs()[j]
  {
    var p := Layout(base);
    assert p.Dirs()[i][|base| + 1..] == DIR_NAMES[i];
    assert p.Dirs()[j][|base| + 1..] == DIR_NAMES[j];
  }

  /** Whether the step for `d` fails: it does not exist and `create_dir_all` cannot make it. */
  predicate Fails(fs: Fs.Snapshot, d: string, refused: set<string>)
  {
    !fs.Exists(d) && Fs.CreateAll(fs, d, refused).0.Err?
  }

  /** The filesystem after the step for `d`: unchanged when `d` exists, as `create_dir_all` leaves it otherwise. */
  function Step(fs: Fs.Snapshot, d: string, refused: set<string>): Fs.Snapshot
  {
    if fs.Exists(d) then fs else Fs.CreateAll(fs, d, refused).1
  }

  /**
   * Creating the directories in order: an existing path is left alone, a
   * missing one is made with `create_dir_all` (which may also make the
   * directories above it), and the first failure stops everything after
   * it. The result is the index of the failed directory, if any, and the
   * filesystem afterwards.
   */
  function CreateInOrder(dirs: seq<string>, fs: Fs.Snapshot, refused: set<string>): (r: (Option<nat>, Fs.Snapshot))
    ensures r.0.Some? ==> r.0.value < |dirs|
    decreases |dirs|
  {
    if dirs == [] then (None, fs)
    else if Fails(fs, dirs[0], refused) then (Some(0), Step(fs, dirs[0], refused))
    else Shift(CreateInOrder(dirs[1..], Step(fs, dirs[0], refused), refused), 1)
  }

  function Shift(r: (Option<nat>, Fs.Snapshot), offset: nat): (Option<nat>, Fs.Snapshot)
  {
    match r.0
    case None => r
    case Some(k) => (Some(k + offset), r.1)
  }

  lemma ShiftTwice(r: (Option<nat>, Fs.Snapshot), a: nat, b: nat)
    ensures Shift(Shift(r, a), b) == Shift(r, a + b)
  {
  }

  /** One step leaves the files alone and only adds directories along the ancestry of `d`. */
  lemma StepGrows(fs: Fs.Snapshot, d: string, refused: set<string>)
    ensures Step(fs, d, refused).files == fs.files
    ensures fs.dirs <= Step(fs, d, refused).dirs <= fs.dirs + Fs.Ancestors(d)
    ensures !Fails(fs, d, refused) && d != [] ==> Step(fs, d, refused).Exists(d)
  {
    Fs.CreateAllEffect(fs, d, refused);
  }

  /** When no step fails, every (non-empty) directory exists afterwards. */
  lemma {:induction false} CreateInOrderSucceeds(dirs: seq<string>, fs: Fs.Snapshot, refused: set<string>)
    requires forall k :: 0 <= k < |dirs| ==> dirs[k] != []
    requires CreateInOrder(dirs, fs, refused).0.None?
    ensures forall d :: d in dirs ==> CreateInOrder(dirs, fs, refused).1.Exists(d)
    decreases |dirs|
  {
    if dirs != [] {
      var next := Step(fs, dirs[0], refused);
      StepGrows(fs, dirs[0], refused);
      assert forall k :: 0 <= k < |dirs| - 1 ==> dirs[1..][k] == dirs[k + 1];
      CreateInOrderSucceeds(dirs[1..], next, refused);
      CreateInOrderGrows(dirs[1..], next, refused);
      forall d | d in dirs
        ensures CreateInOrder(dirs, fs, refused).1.Exists(d)
      {
        if d != dirs[0] {
          assert d in dirs[1..];
        }
      }
    }
  }

  /** Files are untouched and directories are only ever added. */
  lemma {:induction false} CreateInOrderGrows(dirs: seq<string>, fs: Fs.Snapshot, refused: set<string>)
    ensures CreateInOrder(dirs, fs, refused).1.files == fs.files
    ensures fs.dirs <= CreateInOrder(dirs, fs, refused).1.dirs
    decreases |dirs|
  {
    if dirs != [] {
      StepGrows(fs, dirs[0], refused);
      if !Fails(fs, dirs[0], refused) {
        CreateInOrderGrows(dirs[1..], Step(fs, dirs[0], refused), refused);
      }
    }
  }

  /** A well-formed filesystem stays well formed. */
  lemma {:induction false} CreateInOrderTree(dirs: seq<string>, fs: Fs.Snapshot, refused: set<string>)
    requires Fs.Tree(fs)
    ensures Fs.Tree(CreateInOrder(dirs, fs, refused).1)
    decreases |dirs|
  {
    if dirs != [] {
      Fs.CreateAllOk(fs, dirs[0], refused);
      if !Fails(fs, dirs[0], refused) {
        CreateInOrderTree(dirs[1..], Step(fs, dirs[0], refused), refused);
      }
    }
  }

  /**
   * A failure at index k names a directory that was missing and is missing
   * still, because some path on its way is a file or was refused; only
   * directories above the first k + 1 entries were added.
   */
  lemma {:induction false} CreateInOrderStops(dirs: seq<string>, fs: Fs.Snapshot, refused: set<string>)
    requires CreateInOrder(dirs, fs, refused).0.Some?
    ensures var (k, after) := (CreateInOrder(dirs, fs, refused).0.value, CreateInOrder(dirs, fs, refused).1);
      k < |dirs| && !after.Exists(dirs[k])
      && (exists a :: a in Fs.Ancestors(dirs[k]) && a !in after.dirs && (a in fs.files || a in refused))
      && forall x :: x in after.dirs ==> x in fs.dirs || exists i :: 0 <= i <= k && x in Fs.Ancestors(dirs[i])
    decreases |dirs|
  {
    var next := Step(fs, dirs[0], refused);
    StepGrows(fs, dirs[0], refused);
    if Fails(fs, dirs[0], refused) {
      Fs.CreateAllEffect(fs, dirs[0], refused);
    } else {
      CreateInOrderStops(dirs[1..], next, refused);
      var k := CreateInOrder(dirs[1..], next, refused).0.value;
      var after := CreateInOrder(dirs[1..], next, refused).1;
      assert dirs[1..][k] == dirs[k + 1];
      forall x | x in after.dirs
        ensures x in fs.dirs || exists i :: 0 <= i <= k + 1 && x in Fs.Ancestors(dirs[i])
      {
        if x !in next.dirs {
          var i :| 0 <= i <= k && x in Fs.Ancestors(dirs[1..][i]);
          assert dirs[1..][i] == dirs[i + 1];
        } else if x !in fs.dirs {
          assert x in Fs.Ancestors(dirs[0]);
        }
      }
    }
  }

  lemma LayoutDirsNonEmpty(base: string)
    ensures forall k :: 0 <= k < |Layout(base).Dirs()| ==> Layout(base).Dirs()[k] != []
  {
    forall k | 0 <= k < |Layout(base).Dirs()|
      ensures Layout(base).Dirs()[k] != []
    {
      assert |Layout(base).Dirs()[k]| == |base| + 1 + |DIR_NAMES[k]|;
    }
  }

  /** `base/name` sits directly in `base`, so `create_dir_all` makes the base along with it. */
  lemma ParentOfLayoutDir(base: string, name: string)
    requires base != [] && '/' !in name
    ensures Fs.ParentDir(base + "/" + name) == Some(base)
    ensures Fs.Ancestors(base + "/" + name) == {base + "/" + name} + Fs.Ancestors(base)
  {
    var p := base + "/" + name;
    PathRules.LastIndexOfSuffix(base, '/', name);
    assert PathRules.LastIndexOf(p, '/') == Some(|base|);
    assert p[..|base|] == base;
  }

  /**
   * When `from_base` succeeds on a well-formed filesystem, the base directory
   * and every directory above it exist afterwards, as well as the nine.
   */
  lemma LayoutCreatesBase(base: string, fs: Fs.Snapshot, refused: set<string>)
    requires base != [] && Fs.Tree(fs)
    requires CreateInOrder(Layout(base).Dirs(), fs, refused).0.None?
    ensures Fs.Ancestors(base) <= CreateInOrder(Layout(base).Dirs(), fs, refused).1.dirs
  {
    var dirs := Layout(base).Dirs();
    var after := CreateInOrder(dirs, fs, refused).1;
    LayoutDirsNonEmpty(base);
    CreateInOrderSucceeds(dirs, fs, refused);
    CreateInOrderTree(dirs, fs, refused);
    ParentOfLayoutDir(base, "system");
    assert dirs[0] == base + "/" + "system" && after.Exists(dirs[0]);
    Fs.DirAncestorsExist(after, base);
  }

  /** One step of `RetroPaths::new`: `p` is made with `create_dir_all` unless it exists; false when that fails. */
  method EnsureDir(store: Fs.FileStore, p: string, refused: set<string>) returns (created: bool)
    modifies store
    ensures created <==> !Fails(old(store.View()), p, refused)
    ensures store.View() == Step(old(store.View()), p, refused)
    ensures Fs.Tree(old(store.View())) && !old(store.View()).Exists(p) && created ==>
      store.dirs == old(store.dirs) + Fs.Ancestors(p)
  {
    ghost var before := store.View();
    if !(p in store.files || p in store.dirs) {
      var r := store.CreateDirAll(p, refused);
      if Fs.Tree(before) {
        Fs.CreateAllOk(before, p, refused);
      }
      if r.Err? {
        return false;
      }
    }
    created := true;
  }

  /**
   * `RetroPaths::new`: creates the nine directories in order. Which paths the
   * system refuses to create is a parameter; the first failure is the error.
   */
  method New(store: Fs.FileStore, paths: RetroPaths, refused: set<string>) returns (r: Result<RetroPaths>)
    modifies store
    ensures var (failed, after) := CreateInOrder(paths.Dirs(), old(store.View()), refused);
      store.View() == after
      && (r.Ok? <==> failed.None?)
      && (r.Ok? ==> r.value == paths)
      && (r.Err? ==> r.msg == "Não foi possível criar a pasta " + DIR_NAMES[failed.value])
    ensures Fs.Tree(old(store.View())) ==> Fs.Tree(store.View())
  {
    ghost var start := store.View();
    if Fs.Tree(start) {
      CreateInOrderTree(paths.Dirs(), start, refused);
    }
    var dirs := paths.Dirs();
    ghost var fs0 := store.View();
    var i := 0;
    while i < |dirs|
      invariant 0 <= i <= |dirs|
      invariant CreateInOrder(dirs, fs0, refused) == Shift(CreateInOrder(dirs[i..], store.View(), refused), i)
    {
      ghost var before := store.View();
      assert dirs[i..][0] == dirs[i] && dirs[i..][1..] == dirs[i + 1..];
      var ok := EnsureDir(store, dirs[i], refused);
      if !ok {
        assert CreateInOrder(dirs[i..], before, refused) == (Some(0), store.View());
        return Err("Não foi possível criar a pasta " + DIR_NAMES[i]);
      }
      assert CreateInOrder(dirs[i..], before, refused)
        == Shift(CreateInOrder(dirs[i + 1..], store.View(), refused), 1);
      ShiftTwice(CreateInOrder(dirs[i + 1..], store.View(), refused), 1, i);
      i := i + 1;
    }
    assert dirs[i..] == [];
    r := Ok(paths);
  }

  /**
   * `RetroPaths::from_base`: the layout under `base`, created. On a
   * well-formed filesystem a success leaves the base directory, the nine
   * directories under it and everything above it in place.
   */
  method FromBase(store: Fs.FileStore, base: string, refused: set<string>) returns (r: Result<RetroPaths>)
    modifies store
    ensures var (failed, after) := CreateInOrder(Layout(base).Dirs(), old(store.View()), refused);
      store.View() == after && (r.Ok? <==> failed.None?) && (r.Ok? ==> r.value == Layout(base))
    ensures Fs.Tree(old(store.View())) && base != [] && r.Ok? ==>
      Fs.Ancestors(base) <= store.dirs && forall d :: d in Layout(base).Dirs() ==> store.View().Exists(d)
  {
    ghost var before := store.View();
    r := New(store, Layout(base), refused);
    if Fs.Tree(before) && base != [] && r.Ok? {
      LayoutCreatesBase(base, before, refused);
      LayoutDirsNonEmpty(base);
      CreateInOrderSucceeds(Layout(base).Dirs(), before, refused);
    }
  }
}
