/**
 * The filesystem as the model sees it: regular files with their bytes and a
 * set of directories. Paths are taken as already canonical.
 */
module Fs {
  import opened Wrappers
  import PathRules

  /** An immutable view of the filesystem, read by the pure checks. */
  datatype Snapshot = Snapshot(files: map<string, seq<byte>>, dirs: set<string>)
  {
    predicate Exists(p: string) { p in files || p in dirs }
    predicate IsFile(p: string) { p in files }
    predicate IsDir(p: string) { p in dirs }
  }

  /** The mutable filesystem the save-state code writes to. */
  class FileStore {
    var files: map<string, seq<byte>>
    var dirs: set<string>

    function View(): Snapshot
      reads this
    {
      Snapshot(files, dirs)
    }

    constructor (init: Snapshot)
      ensures View() == init
    {
      files := init.files;
      dirs := init.dirs;
    }

    /**
     * `fs::create_dir_all`, following the recursion of the standard library:
     * the empty path and an existing directory succeed at once, an
     * existing file fails, and otherwise the parent is created before `p`.
     * `refused` holds the paths the system declines to create.
     */
    method CreateDirAll(p: string, refused: set<string>) returns (r: Result<Unit>)
      modifies this
      ensures (r, View()) == CreateAll(old(View()), p, refused)
      decreases |p|
    {
      if p == [] || p in dirs {
        return Ok(Unit);
      }
      if p in files {
        return Err(NOT_A_DIRECTORY);
      }
      var parent := ParentDir(p);
      if parent.Some? {
        var made := CreateDirAll(parent.value, refused);
        if made.Err? {
          return made;
        }
      }
      if p in refused {
        return Err(CANNOT_CREATE);
      }
      dirs := dirs + {p};
      r := Ok(Unit);
    }

    /** `fs::write`: creates or truncates a regular file; fails on a directory. */
    method Write(p: string, data: seq<byte>) returns (r: Result<Unit>)
      modifies this
      ensures dirs == old(dirs)
      ensures p in old(dirs) ==> r.Err? && files == old(files)
      ensures p !in old(dirs) ==> r == Ok(Unit) && files == old(files)[p := data]
    {
      if p in dirs {
        r := Err("is a directory");
      } else {
        files := files[p := data];
        r := Ok(Unit);
      }
    }

    /** `fs::rename` of a regular file onto a path that is not a directory. */
    method Rename(from: string, to: string) returns (r: Result<Unit>)
      modifies this
      ensures dirs == old(dirs)
      ensures r.Ok? <==> from in old(files) && to !in old(dirs)
      ensures r.Ok? ==> files == (old(files) - {from})[to := old(files)[from]]
      ensures r.Err? ==> files == old(files)
    {
      if from in files && to !in dirs {
        files := (files - {from})[to := files[from]];
        r := Ok(Unit);
      } else {
        r := Err("cannot rename");
      }
    }

    /** `fs::remove_file`. */
    method RemoveFile(p: string) returns (r: Result<Unit>)
      modifies this
      ensures dirs == old(dirs)
      ensures r.Ok? <==> p in old(files)
      ensures files == old(files) - {p}
    {
      r := if p in files then Ok(Unit) else Err("no such file");
      files := files - {p};
    }

    /** `fs::read`. */
    method Read(p: string) returns (r: Result<seq<byte>>)
      ensures r.Ok? <==> p in files
      ensures r.Ok? ==> r.value == files[p]
    {
      r := if p in files then Ok(files[p]) else Err("no such file");
    }
  }

  const NOT_A_DIRECTORY := "path exists and is not a directory"
  const CANNOT_CREATE := "cannot create directory"

  /**
   * The directory `create_dir_all` recurses into: the path before the last
   * '/', unless that is empty (a relative path's top level) or the '/' is
   * the leading one.
   */
  function ParentDir(p: string): (r: Option<string>)
    ensures r.Some? ==> (r.value != [] && |r.value| < |p| && p[..|r.value|] == r.value
                         && p[|r.value|] == '/' && '/' !in p[|r.value| + 1..])
    ensures r.None? ==> forall k :: 0 < k < |p| ==> p[k] != '/'
  {
    match PathRules.LastIndexOf(p, '/')
    case None => None
    case Some(i) => if i == 0 then None else Some(p[..i])
  }

  /** `p` and every directory above it that `create_dir_all(p)` may have to create. */
  function Ancestors(p: string): (r: set<string>)
    ensures p != [] ==> p in r
    ensures forall a :: a in r ==> |a| <= |p| && a == p[..|a|]
    decreases |p|
  {
    if p == [] then {}
    else {p} + match ParentDir(p) case None => {} case Some(q) => Ancestors(q)
  }

  /** The specification of `FileStore.CreateDirAll`: its outcome and the filesystem afterwards. */
  function CreateAll(fs: Snapshot, p: string, refused: set<string>): (Result<Unit>, Snapshot)
    decreases |p|
  {
    if p == [] || p in fs.dirs then (Ok(Unit), fs)
    else if p in fs.files then (Err(NOT_A_DIRECTORY), fs)
    else
      var (made, mid) := match ParentDir(p) case None => (Ok(Unit), fs) case Some(q) => CreateAll(fs, q, refused);
      if made.Err? then (made, mid)
      else if p in refused then (Err(CANNOT_CREATE), mid)
      else (Ok(Unit), mid.(dirs := mid.dirs + {p}))
  }

  /** A well-formed filesystem: nothing is both a file and a directory, and everything sits in a directory that exists. */
  ghost predicate Tree(fs: Snapshot)
  {
    (forall p :: p in fs.files ==> p !in fs.dirs)
    && (forall p :: p in fs.dirs && ParentDir(p).Some? ==> ParentDir(p).value in fs.dirs)
    && (forall p :: p in fs.files && ParentDir(p).Some? ==> ParentDir(p).value in fs.dirs)
  }

  /** In a well-formed filesystem the directories above a directory exist. */
  lemma {:induction false} DirAncestorsExist(fs: Snapshot, p: string)
    requires Tree(fs) && p in fs.dirs
    ensures Ancestors(p) <= fs.dirs
    decreases |p|
  {
    if p != [] {
      match ParentDir(p)
      case None =>
      case Some(q) => DirAncestorsExist(fs, q);
    }
  }

  /**
   * What `create_dir_all` can change: never the files, and directories only
   * along the ancestry of `p`. On success `p` is a directory; on failure it
   * is not, and some path on the way is a file or a refused directory.
   */
  lemma {:induction false} CreateAllEffect(fs: Snapshot, p: string, refused: set<string>)
    ensures var (r, after) := CreateAll(fs, p, refused);
      after.files == fs.files && fs.dirs <= after.dirs <= fs.dirs + Ancestors(p)
      && (r.Ok? ==> p == [] || p in after.dirs)
      && (r.Err? ==> (p !in after.dirs
                      && exists a :: a in Ancestors(p) && a !in after.dirs && (a in fs.files || a in refused)))
    decreases |p|
  {
    if !(p == [] || p in fs.dirs || p in fs.files) {
      match ParentDir(p)
      case None =>
      case Some(q) =>
        CreateAllEffect(fs, q, refused);
        var (made, mid) := CreateAll(fs, q, refused);
        assert p !in Ancestors(q);
        if made.Err? {
          var a :| a in Ancestors(q) && a !in mid.dirs && (a in fs.files || a in refused);
          assert a in Ancestors(p);
        }
    }
  }

  /**
   * On a well-formed filesystem `create_dir_all(p)` succeeds exactly when no
   * path on the way is a file or a missing directory the system refuses;
   * it then creates precisely the missing ancestors of `p`, and the
   * filesystem stays well formed either way.
   */
  lemma {:induction false} CreateAllOk(fs: Snapshot, p: string, refused: set<string>)
    requires Tree(fs)
    ensures var (r, after) := CreateAll(fs, p, refused);
      (r.Ok? <==> forall a :: a in Ancestors(p) ==> a in fs.dirs || (a !in fs.files && a !in refused))
      && (r.Ok? ==> after.dirs == fs.dirs + Ancestors(p))
      && Tree(after)
    decreases |p|
  {
    if p == [] {
    } else if p in fs.dirs {
      DirAncestorsExist(fs, p);
    } else if p in fs.files {
    } else {
      match ParentDir(p)
      case None =>
        assert Ancestors(p) == {p};
      case Some(q) =>
        CreateAllOk(fs, q, refused);
        CreateAllEffect(fs, q, refused);
        assert Ancestors(p) == {p} + Ancestors(q);
    }
  }

  /**
   * The consequences the callers use: the files stay; on a well-formed
   * filesystem a success creates exactly the missing ancestors, and a file
   * anywhere on the way is a failure.
   */
  lemma CreateAllTree(fs: Snapshot, p: string, refused: set<string>)
    ensures CreateAll(fs, p, refused).1.files == fs.files
    ensures Tree(fs) && CreateAll(fs, p, refused).0.Ok? ==> CreateAll(fs, p, refused).1.dirs == fs.dirs + Ancestors(p)
    ensures Tree(fs) && (exists a :: a in Ancestors(p) && a in fs.files) ==> CreateAll(fs, p, refused).0.Err?
  {
    CreateAllEffect(fs, p, refused);
    if Tree(fs) {
      CreateAllOk(fs, p, refused);
    }
  }
}
