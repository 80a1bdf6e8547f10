/**
 * Thumbnails (`art::mod` and `art::thumbnail`): the three kinds of
 * libretro thumbnail, the URL of each for a game, and the record filled by
 * downloading all three.
 */
module Art {
  import opened Wrappers
  import opened Text
  import PathRules

  /** `THUMBNAIL_BASE_URL`. */
  const THUMBNAIL_BASE_URL := "https://raw.githubusercontent.com/libretro/libretro-thumbnails/master"

  /** `ThumbnailType`. */
  datatype ThumbnailType = Box | Snap | Titles

  /** The `Display` of a thumbnail type: the directory of that kind in the thumbnail repository. */
  function Display(t: ThumbnailType): string
  {
    match t
    case Box => "Named_Boxarts"
    case Snap => "Named_Snaps"
    case Titles => "Named_Titles"
  }

  /** The three names are pairwise distinct (their lengths are 13, 11 and 12) and hold no space. */
  lemma DisplayDistinct(a: ThumbnailType, b: ThumbnailType)
    ensures a != b ==> |Display(a)| != |Display(b)| && Display(a) != Display(b)
    ensures ' ' !in Display(a)
  {
  }

  /** Every space written as "%20", every other character kept. */
  function EscapeSpaces(s: string): (r: string)
    decreases |s|
  {
    if s == [] then []
    else (if s[0] == ' ' then "%20" else [s[0]]) + EscapeSpaces(s[1..])
  }

  /** `replace(" ", "%20")` is exactly the space escaping. */
  lemma {:induction false} ReplaceSpaces(s: string)
    ensures ReplaceAll(s, " ", "%20") == EscapeSpaces(s)
    decreases |s|
  {
    if s != [] {
      ReplaceSpaces(s[1..]);
      assert s[..1] == [s[0]];
    }
  }

  /** An escaped string holds no space, and one without spaces is left as it is. */
  lemma {:induction false} EscapeSpacesSpec(s: string)
    ensures ' ' !in EscapeSpaces(s)
    ensures ' ' !in s ==> EscapeSpaces(s) == s
    decreases |s|
  {
    if s != [] {
      EscapeSpacesSpec(s[1..]);
      assert s == [s[0]] + s[1..];
    }
  }

  /** `get_thumbnail_url`: the base, the escaped system, the type's directory, then the escaped name with ".png". */
  function GetThumbnailUrl(t: ThumbnailType, rdbName: string, name: string): (r: string)
  {
    var name' := ReplaceAll(name, " ", "%20");
    var sys := ReplaceAll(rdbName, " ", "%20");
    THUMBNAIL_BASE_URL + "/" + sys + "/" + Display(t) + "/" + name' + ".png"
  }

  /** The URL in terms of the escaping: a fixed prefix for the game, the type segment, a fixed suffix. */
  lemma ThumbnailUrlShape(t: ThumbnailType, rdbName: string, name: string)
    ensures GetThumbnailUrl(t, rdbName, name)
      == UrlPrefix(rdbName) + Display(t) + UrlSuffix(name)
  {
    ReplaceSpaces(rdbName);
    ReplaceSpaces(name);
  }

  /** What the URLs of one game share in front of the type segment. */
  function UrlPrefix(rdbName: string): string
  {
    THUMBNAIL_BASE_URL + "/" + EscapeSpaces(rdbName) + "/"
  }

  /** What the URLs of one game share after the type segment. */
  function UrlSuffix(name: string): string
  {
    "/" + EscapeSpaces(name) + ".png"
  }

  /** The three URLs of a game differ only in the type segment, and so are pairwise distinct. */
  lemma ThumbnailUrlsDiffer(a: ThumbnailType, b: ThumbnailType, rdbName: string, name: string)
    requires a != b
    ensures GetThumbnailUrl(a, rdbName, name) != GetThumbnailUrl(b, rdbName, name)
  {
    ThumbnailUrlShape(a, rdbName, name);
    ThumbnailUrlShape(b, rdbName, name);
    DisplayDistinct(a, b);
  }

  /** `Thumbnails`: for each kind, the downloaded file if any and the URL. */
  datatype Thumbnails = Thumbnails(
    boxImg: (Option<string>, string),
    snapImg: (Option<string>, string),
    titleImg: (Option<string>, string))

  /** `Thumbnails::default()`. */
  const DEFAULT_THUMBNAILS := Thumbnails((None, ""), (None, ""), (None, ""))

  function Slot(th: Thumbnails, t: ThumbnailType): (Option<string>, string)
  {
    match t
    case Box => th.boxImg
    case Snap => th.snapImg
    case Titles => th.titleImg
  }

  /** The `match art_type` assignment: only the slot of that type changes. */
  function SetSlot(th: Thumbnails, t: ThumbnailType, v: (Option<string>, string)): (r: Thumbnails)
    ensures Slot(r, t) == v
    ensures forall u :: u != t ==> Slot(r, u) == Slot(th, u)
  {
    match t
    case Box => th.(boxImg := v)
    case Snap => th.(snapImg := v)
    case Titles => th.(titleImg := v)
  }

  /** A default record has no file and an empty URL in every slot. */
  lemma DefaultThumbnails(t: ThumbnailType)
    ensures Slot(DEFAULT_THUMBNAILS, t) == (None, "")
  {
  }

  /**
   * The slot `download_all_thumbnail_from_game` fills for one kind:
   * `download(url, file, dir)` is the path a download of `url` to `file` in
   * `dir` produced, or None when it failed.
   */
  function Expected(t: ThumbnailType, rdbName: string, name: string, dest: string,
                    download: (string, string, string) -> Option<string>): (Option<string>, string)
  {
    var url := GetThumbnailUrl(t, rdbName, name);
    (download(url, name + ".png", PathRules.Push(dest, Display(t))), url)
  }

  /** The position of a kind in the order the downloads are made. */
  function Order(t: ThumbnailType): nat
  {
    match t
    case Box => 0
    case Snap => 1
    case Titles => 2
  }

  /** `download_all_thumbnail_from_game`: the three kinds in turn, each slot holding its download and its URL. */
  method DownloadAllThumbnailFromGame(rdbName: string, name: string, dest: string,
                                      download: (string, string, string) -> Option<string>)
    returns (r: Result<Thumbnails>)
    ensures r.Ok?
    ensures forall t :: Slot(r.value, t) == Expected(t, rdbName, name, dest, download)
  {
    var arts := [(GetThumbnailUrl(Box, rdbName, name), Box),
                 (GetThumbnailUrl(Snap, rdbName, name), Snap),
                 (GetThumbnailUrl(Titles, rdbName, name), Titles)];
    var thumbnails := DEFAULT_THUMBNAILS;
    var i := 0;
    while i < |arts|
      invariant 0 <= i <= |arts|
      invariant forall t :: Slot(thumbnails, t) == (if Order(t) < i then Expected(t, rdbName, name, dest, download) else (None, ""))
    {
      var (artUrl, artType) := arts[i];
      assert Order(artType) == i;
      var dir := PathRules.Push(dest, Display(artType));
      var path := download(artUrl, name + ".png", dir);
      thumbnails := SetSlot(thumbnails, artType, (path, artUrl));
      i := i + 1;
    }
    r := Ok(thumbnails);
  }

  /** Whatever the downloads give, every slot records its URL; a failed download leaves its path None. */
  lemma UrlsRecorded(th: Thumbnails, rdbName: string, name: string, dest: string,
                     download: (string, string, string) -> Option<string>, t: ThumbnailType)
    requires forall u :: Slot(th, u) == Expected(u, rdbName, name, dest, download)
    ensures Slot(th, t).1 == GetThumbnailUrl(t, rdbName, name) && Slot(th, t).1 != ""
    ensures download(Slot(th, t).1, name + ".png", PathRules.Push(dest, Display(t))).None? ==> Slot(th, t).0.None?
  {
    ThumbnailUrlShape(t, rdbName, name);
  }
}
