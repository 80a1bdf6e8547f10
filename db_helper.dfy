/**
 * `database::helper::DatabaseHelper`: searching an RDB by game name,
 * identifying a ROM by its CRC across the installed RDBs of a core, and
 * the list of files `download_db` fetches.
 */
module DbHelper {
  import opened Wrappers
  import opened Ints
  import opened Text
  import opened MsgPack
  import opened GameModel
  import PathRules

  // ------------------------------------------------------------ search_by_name

  /** The callback's test in `search_by_name`: a named game whose lower-cased name contains the lower-cased query. */
  predicate NameMatches(g: GameInfo, query: string)
  {
    g.name.Some? && Contains(Lower(g.name.value), Lower(query))
  }

  /** The games of a stream that `search_by_name` keeps, in stream order. */
  function Matching(gs: seq<GameInfo>, query: string): (r: seq<GameInfo>)
    decreases |gs|
  {
    if gs == [] then []
    else (if NameMatches(gs[0], query) then [gs[0]] else []) + Matching(gs[1..], query)
  }

  /** A game is kept exactly when it is in the stream and its name matches. */
  lemma {:induction false} MatchingMembers(gs: seq<GameInfo>, query: string, g: GameInfo)
    ensures g in Matching(gs, query) <==> g in gs && NameMatches(g, query)
    decreases |gs|
  {
    if gs != [] {
      MatchingMembers(gs[1..], query, g);
      assert gs == [gs[0]] + gs[1..];
    }
  }

  /** Keeping is done record by record, so the order of the stream is kept. */
  lemma {:induction false} MatchingAppend(a: seq<GameInfo>, b: seq<GameInfo>, query: string)
    ensures Matching(a + b, query) == Matching(a, query) + Matching(b, query)
    decreases |a|
  {
    if a == [] {
      assert a + b == b;
    } else {
      assert (a + b)[1..] == a[1..] + b;
      MatchingAppend(a[1..], b, query);
    }
  }

  /** A game without a name is never returned. */
  lemma NamelessNeverMatches(gs: seq<GameInfo>, query: string, g: GameInfo)
    requires g.name.None?
    ensures g !in Matching(gs, query)
  {
    MatchingMembers(gs, query, g);
  }

  /**
   * `search_by_name` over the decoder's outcomes for the file: the kept
   * games in order when decoding ends on a marker, data or syntax error;
   * any other error is propagated.
   */
  method SearchByName(outs: seq<Outcome<GameInfo>>, query: string) returns (r: Result<seq<GameInfo>>)
    ensures var (games, stop) := Decode(outs);
      (r.Ok? <==> stop.EndsStream())
      && (r.Ok? ==> r.value == Matching(games, query))
      && (r.Err? ==> r.msg == stop.msg)
  {
    var outGame: seq<GameInfo> := [];
    var i := 0;
    assert outs[i..] == outs;
    while i < |outs|
      invariant 0 <= i <= |outs|
      invariant Matching(Decode(outs).0, query) == outGame + Matching(Decode(outs[i..]).0, query)
      invariant Decode(outs).1 == Decode(outs[i..]).1
    {
      DecodeFrom(outs, i);
      if outs[i].Failed? {
        assert Matching(Decode(outs).0, query) == outGame;
        if outs[i].err.EndsStream() {
          return Ok(outGame);
        }
        return Err(outs[i].err.msg);
      }
      var game := outs[i].game;
      ghost var rest := Decode(outs[i + 1..]).0;
      assert ([game] + rest)[1..] == rest;
      if game.name.Some? && Contains(Lower(game.name.value), Lower(query)) {
        outGame := outGame + [game];
      }
      i := i + 1;
    }
    assert outs[i..] == [];
    assert Matching(Decode(outs).0, query) == outGame;
    r := Ok(outGame);
  }

  // ------------------------------------------------------- identifier_rom_file

  /** `RDBDatabase`: a directory entry of the database directory. */
  datatype RdbDatabase = RdbDatabase(name: string, file: string)

  /** The filter of `identifier_rom_file`: the entry's name with every ".rdb" removed is one of the core's databases. */
  predicate ForCore(rdb: RdbDatabase, database: seq<string>)
  {
    ReplaceAll(rdb.name, ".rdb", "") in database
  }

  function Candidates(rdbs: seq<RdbDatabase>, database: seq<string>): (r: seq<RdbDatabase>)
    decreases |rdbs|
  {
    if rdbs == [] then []
    else (if ForCore(rdbs[0], database) then [rdbs[0]] else []) + Candidates(rdbs[1..], database)
  }

  /** Only entries for the core's databases are searched, and all of them are. */
  lemma {:induction false} CandidatesMembers(rdbs: seq<RdbDatabase>, database: seq<string>, x: RdbDatabase)
    ensures x in Candidates(rdbs, database) <==> x in rdbs && ForCore(x, database)
    decreases |rdbs|
  {
    if rdbs != [] {
      CandidatesMembers(rdbs[1..], database, x);
      assert rdbs == [rdbs[0]] + rdbs[1..];
    }
  }

  /** The game the callback of `identifier_rom_file` keeps: the first whose crc is the file's. */
  function FirstWithCrc(gs: seq<GameInfo>, crc: u32): (r: Option<GameInfo>)
    decreases |gs|
  {
    if gs == [] then None
    else if gs[0].crc32 == Some(crc) then Some(gs[0])
    else FirstWithCrc(gs[1..], crc)
  }

  /** `FirstWithCrc` finds the earliest game with the crc, and finds none only when no game has it. */
  lemma {:induction false} FirstWithCrcSpec(gs: seq<GameInfo>, crc: u32)
    ensures FirstWithCrc(gs, crc).Some? ==>
      exists k :: 0 <= k < |gs| && gs[k] == FirstWithCrc(gs, crc).value && gs[k].crc32 == Some(crc)
        && forall j :: 0 <= j < k ==> gs[j].crc32 != Some(crc)
    ensures FirstWithCrc(gs, crc).None? ==> forall k :: 0 <= k < |gs| ==> gs[k].crc32 != Some(crc)
    decreases |gs|
  {
    if gs != [] && gs[0].crc32 != Some(crc) {
      FirstWithCrcSpec(gs[1..], crc);
      if FirstWithCrc(gs, crc).Some? {
        var k :| 0 <= k < |gs[1..]| && gs[1..][k] == FirstWithCrc(gs, crc).value && gs[1..][k].crc32 == Some(crc)
          && forall j :: 0 <= j < k ==> gs[1..][j].crc32 != Some(crc);
        assert gs[k + 1] == gs[1..][k];
        assert forall j :: 1 <= j < k + 1 ==> gs[j] == gs[1..][j - 1];
      } else {
        assert forall k :: 1 <= k < |gs| ==> gs[k] == gs[1..][k - 1];
      }
    }
  }

  /** The games the callback is shown for one rdb file: those decoded before the decoder stops. */
  function GamesOf(outsOf: string -> seq<Outcome<GameInfo>>, file: string): seq<GameInfo>
  {
    Decode(outsOf(file)).0
  }

  /** The outcome of the search over a list of rdbs: the match of the first rdb that has one. */
  function FindIn(rbs: seq<RdbDatabase>, crc: u32, outsOf: string -> seq<Outcome<GameInfo>>): (r: Option<GameInfo>)
    decreases |rbs|
  {
    if rbs == [] then None
    else
      var found := FirstWithCrc(GamesOf(outsOf, rbs[0].file), crc);
      if found.Some? then found else FindIn(rbs[1..], crc, outsOf)
  }

  /** A result is the first match of some rdb, no earlier rdb having one; no result means no rdb has a match. */
  lemma {:induction false} FindInSpec(rbs: seq<RdbDatabase>, crc: u32, outsOf: string -> seq<Outcome<GameInfo>>)
    ensures FindIn(rbs, crc, outsOf).Some? ==>
      exists j :: 0 <= j < |rbs| && FirstWithCrc(GamesOf(outsOf, rbs[j].file), crc) == FindIn(rbs, crc, outsOf)
        && forall i :: 0 <= i < j ==> FirstWithCrc(GamesOf(outsOf, rbs[i].file), crc).None?
    ensures FindIn(rbs, crc, outsOf).None? ==>
      forall j :: 0 <= j < |rbs| ==> FirstWithCrc(GamesOf(outsOf, rbs[j].file), crc).None?
    decreases |rbs|
  {
    if rbs != [] && FirstWithCrc(GamesOf(outsOf, rbs[0].file), crc).None? {
      FindInSpec(rbs[1..], crc, outsOf);
      if FindIn(rbs, crc, outsOf).Some? {
        var j :| 0 <= j < |rbs[1..]| && FirstWithCrc(GamesOf(outsOf, rbs[1..][j].file), crc) == FindIn(rbs, crc, outsOf)
          && forall i :: 0 <= i < j ==> FirstWithCrc(GamesOf(outsOf, rbs[1..][i].file), crc).None?;
        assert rbs[j + 1] == rbs[1..][j];
        assert forall i :: 1 <= i < j + 1 ==> rbs[i] == rbs[1..][i - 1];
      } else {
        assert forall j :: 1 <= j < |rbs| ==> rbs[j] == rbs[1..][j - 1];
      }
    }
  }

  /** One `parse_rdb` call with the crc callback: the decoded games are offered in order until one matches. */
  method ScanForCrc(outs: seq<Outcome<GameInfo>>, crc: u32) returns (found: Option<GameInfo>)
    ensures found == FirstWithCrc(Decode(outs).0, crc)
  {
    found := None;
    var i := 0;
    assert outs[i..] == outs;
    while i < |outs|
      invariant 0 <= i <= |outs|
      invariant FirstWithCrc(Decode(outs).0, crc) == FirstWithCrc(Decode(outs[i..]).0, crc)
    {
      DecodeFrom(outs, i);
      if outs[i].Failed? {
        return None;
      }
      var game := outs[i].game;
      assert ([game] + Decode(outs[i + 1..]).0)[1..] == Decode(outs[i + 1..]).0;
      if game.crc32 == Some(crc) {
        return Some(game);
      }
      i := i + 1;
    }
    assert outs[i..] == [];
  }

  /**
   * `identifier_rom_file`: `installed` is the listing of the database
   * directory, `crc` the CRC-32 of the ROM file and `outsOf` the decoder's
   * outcomes for each rdb file. Errors of the listing and of the CRC are
   * propagated, in that order; decode errors are ignored.
   */
  method IdentifierRomFile(installed: Result<seq<RdbDatabase>>, database: seq<string>, crc: Result<u32>,
                           outsOf: string -> seq<Outcome<GameInfo>>)
    returns (r: Result<Option<GameInfo>>)
    ensures installed.Err? ==> r == Err(installed.msg)
    ensures installed.Ok? && crc.Err? ==> r == Err(crc.msg)
    ensures installed.Ok? && crc.Ok? ==> r == Ok(FindIn(Candidates(installed.value, database), crc.value, outsOf))
  {
    var all :- installed;
    var rbs := FilterCandidates(all, database);
    var src32 :- crc;
    var outGame := SearchRdbs(rbs, src32, outsOf);
    return Ok(outGame);
  }

  /** The filter of `identifier_rom_file` over the directory listing. */
  method FilterCandidates(all: seq<RdbDatabase>, database: seq<string>) returns (rbs: seq<RdbDatabase>)
    ensures rbs == Candidates(all, database)
  {
    rbs := [];
    var k := 0;
    while k < |all|
      invariant 0 <= k <= |all|
      invariant Candidates(all, database) == rbs + Candidates(all[k..], database)
    {
      CandidatesStep(all, database, k, rbs);
      if ReplaceAll(all[k].name, ".rdb", "") in database {
        rbs := rbs + [all[k]];
      }
      k := k + 1;
    }
    assert all[k..] == [];
    assert rbs + [] == rbs;
  }

  /** One entry of the filter loop: it is kept exactly when it is for the core. */
  lemma CandidatesStep(all: seq<RdbDatabase>, database: seq<string>, k: nat, rbs: seq<RdbDatabase>)
    requires k < |all| && Candidates(all, database) == rbs + Candidates(all[k..], database)
    ensures Candidates(all, database)
      == (rbs + if ForCore(all[k], database) then [all[k]] else []) + Candidates(all[k + 1..], database)
  {
    assert all[k..][0] == all[k] && all[k..][1..] == all[k + 1..];
    var here := if ForCore(all[k], database) then [all[k]] else [];
    assert Candidates(all[k..], database) == here + Candidates(all[k + 1..], database);
    assert rbs + (here + Candidates(all[k + 1..], database)) == (rbs + here) + Candidates(all[k + 1..], database);
  }

  /** The loop of `identifier_rom_file` over the candidate rdbs, leaving at the first that holds a match. */
  method SearchRdbs(rbs: seq<RdbDatabase>, src32: u32, outsOf: string -> seq<Outcome<GameInfo>>)
    returns (outGame: Option<GameInfo>)
    ensures outGame == FindIn(rbs, src32, outsOf)
  {
    outGame := None;
    var i := 0;
    assert rbs[i..] == rbs;
    while i < |rbs|
      invariant 0 <= i <= |rbs|
      invariant FindIn(rbs, src32, outsOf) == FindIn(rbs[i..], src32, outsOf)
      invariant outGame.None?
    {
      assert rbs[i..][0] == rbs[i] && rbs[i..][1..] == rbs[i + 1..];
      outGame := ScanForCrc(outsOf(rbs[i].file), src32);
      if outGame.Some? {
        return;
      }
      i := i + 1;
    }
    assert rbs[i..] == [];
  }

  // ---------------------------------------------------------------- download_db

  /** `RDB_BASE_URL`. */
  const RDB_BASE_URL := "https://raw.githubusercontent.com/libretro/libretro-database/master/rdb"

  function RdbUrl(name: string): string
  {
    RDB_BASE_URL + "/" + name
  }

  /** The names `download_db` fetches, as written: each name without ".rdb" gains it, and the others are dropped. */
  function DownloadNames(rdbs: seq<string>): (r: seq<string>)
    decreases |rdbs|
  {
    if rdbs == [] then []
    else (if !EndsWith(rdbs[0], ".rdb") then [rdbs[0] + ".rdb"] else []) + DownloadNames(rdbs[1..])
  }

  /** Every listed name is a requested name without the suffix, with ".rdb" added. */
  lemma {:induction false} DownloadNamesMembers(rdbs: seq<string>, n: string)
    ensures n in DownloadNames(rdbs) <==> exists k :: 0 <= k < |rdbs| && !EndsWith(rdbs[k], ".rdb") && n == rdbs[k] + ".rdb"
    decreases |rdbs|
  {
    if rdbs != [] {
      DownloadNamesMembers(rdbs[1..], n);
      if n in DownloadNames(rdbs[1..]) {
        var k :| 0 <= k < |rdbs[1..]| && !EndsWith(rdbs[1..][k], ".rdb") && n == rdbs[1..][k] + ".rdb";
        assert rdbs[k + 1] == rdbs[1..][k];
      }
      if exists k :: 0 <= k < |rdbs| && !EndsWith(rdbs[k], ".rdb") && n == rdbs[k] + ".rdb" {
        var k :| 0 <= k < |rdbs| && !EndsWith(rdbs[k], ".rdb") && n == rdbs[k] + ".rdb";
        if k > 0 {
          assert rdbs[1..][k - 1] == rdbs[k];
        }
      }
    }
  }

  /** A request already naming the file is never fetched: the list for `["NES.rdb"]` is empty. */
  lemma SuffixedNameDropped()
    ensures DownloadNames(["NES.rdb"]) == []
  {
    assert EndsWith("NES.rdb", ".rdb");
  }

  /** The list the loop evidently means to build: names keep ".rdb" when they have it and gain it otherwise. */
  function DownloadNamesKept(rdbs: seq<string>): (r: seq<string>)
    ensures |r| == |rdbs|
    ensures forall k :: 0 <= k < |rdbs| ==> r[k] == if EndsWith(rdbs[k], ".rdb") then rdbs[k] else rdbs[k] + ".rdb"
  {
    seq(|rdbs|, k requires 0 <= k < |rdbs| => if EndsWith(rdbs[k], ".rdb") then rdbs[k] else rdbs[k] + ".rdb")
  }

  /** In the kept list every request is fetched under a name ending in ".rdb". */
  lemma DownloadNamesKeptSuffixed(rdbs: seq<string>)
    ensures forall k :: 0 <= k < |rdbs| ==> EndsWith(DownloadNamesKept(rdbs)[k], ".rdb")
  {
    forall k | 0 <= k < |rdbs|
      ensures EndsWith(DownloadNamesKept(rdbs)[k], ".rdb")
    {
      var n := rdbs[k] + ".rdb";
      assert n[|n| - 4..] == ".rdb";
    }
  }

  /**
   * The downloads the second loop of `download_db` makes, in order: a name
   * whose path in the database directory exists is skipped, and the first
   * failing download ends the loop with its error.
   */
  function Fetches(names: seq<string>, dbDir: string, present: set<string>, download: string -> Result<Unit>)
    : (r: (seq<string>, Result<Unit>))
    decreases |names|
  {
    if names == [] then ([], Ok(Unit))
    else if PathRules.Push(dbDir, names[0]) in present then Fetches(names[1..], dbDir, present, download)
    else
      var url := RdbUrl(names[0]);
      if download(url).Err? then ([url], Err(download(url).msg))
      else
        var rest := Fetches(names[1..], dbDir, present, download);
        ([url] + rest.0, rest.1)
  }

  /**
   * Only missing files are fetched, and when all downloads succeed every
   * missing file has been fetched; a failure is the last download tried.
   */
  lemma {:induction false} FetchesSpec(names: seq<string>, dbDir: string, present: set<string>,
                                       download: string -> Result<Unit>)
    ensures var (urls, r) := Fetches(names, dbDir, present, download);
      (forall u :: u in urls ==> exists n :: n in names && u == RdbUrl(n) && PathRules.Push(dbDir, n) !in present)
      && (r.Ok? ==> forall n :: n in names && PathRules.Push(dbDir, n) !in present ==> RdbUrl(n) in urls)
      && (r.Err? ==> urls != [] && download(urls[|urls| - 1]) == r)
    decreases |names|
  {
    if names != [] {
      FetchesSpec(names[1..], dbDir, present, download);
      assert names == [names[0]] + names[1..];
    }
  }

  /**
   * `download_db`: `present` are the paths that exist and `download` the
   * outcome of fetching each URL. The URLs fetched are returned with the
   * result.
   */
  method DownloadDb(dbDir: string, rdbs: seq<string>, present: set<string>, download: string -> Result<Unit>)
    returns (r: Result<Unit>, urls: seq<string>)
    ensures rdbs == [] ==> r == Err("dbs is empty") && urls == []
    ensures rdbs != [] ==> (urls, r) == Fetches(DownloadNames(rdbs), dbDir, present, download)
  {
    urls := [];
    if rdbs == [] {
      return Err("dbs is empty"), urls;
    }
    var dbs := WithRdbSuffix(rdbs);
    urls, r := FetchMissing(dbs, dbDir, present, download);
  }

  /** The first loop of `download_db`: the names without the ".rdb" suffix, with it added. */
  method WithRdbSuffix(rdbs: seq<string>) returns (dbs: seq<string>)
    ensures dbs == DownloadNames(rdbs)
  {
    dbs := [];
    var k := 0;
    while k < |rdbs|
      invariant 0 <= k <= |rdbs|
      invariant DownloadNames(rdbs) == dbs + DownloadNames(rdbs[k..])
    {
      assert rdbs[k..][0] == rdbs[k] && rdbs[k..][1..] == rdbs[k + 1..];
      if !EndsWith(rdbs[k], ".rdb") {
        dbs := dbs + [rdbs[k] + ".rdb"];
      }
      k := k + 1;
    }
    assert rdbs[k..] == [];
    assert dbs + [] == dbs;
  }

  /** The second loop of `download_db`: each missing database fetched in order, stopping at the first failure. */
  method FetchMissing(dbs: seq<string>, dbDir: string, present: set<string>, download: string -> Result<Unit>)
    returns (urls: seq<string>, r: Result<Unit>)
    ensures (urls, r) == Fetches(dbs, dbDir, present, download)
  {
    urls := [];
    var i := 0;
    assert dbs[i..] == dbs;
    while i < |dbs|
      invariant 0 <= i <= |dbs|
      invariant Fetches(dbs, dbDir, present, download).0 == urls + Fetches(dbs[i..], dbDir, present, download).0
      invariant Fetches(dbs, dbDir, present, download).1 == Fetches(dbs[i..], dbDir, present, download).1
    {
      var name := dbs[i];
      assert dbs[i..][0] == name && dbs[i..][1..] == dbs[i + 1..];
      if PathRules.Push(dbDir, name) in present {
        i := i + 1;
        continue;
      }
      var url := RdbUrl(name);
      var got := download(url);
      if got.Err? {
        urls := urls + [url];
        return urls, Err(got.msg);
      }
      assert urls + ([url] + Fetches(dbs[i + 1..], dbDir, present, download).0)
        == (urls + [url]) + Fetches(dbs[i + 1..], dbDir, present, download).0;
      urls := urls + [url];
      i := i + 1;
    }
    assert dbs[i..] == [];
    assert urls + [] == urls;
    r := Ok(Unit);
  }
}
