/**
 * Reading an RDB file in batches (`rdb_manager::rdb_parser`): records are
 * decoded one after another from the byte after the header and handed to
 * the listener fifty at a time; and the set of RDB files the installed
 * cores name.
 */
module RdbParser {
  import opened Wrappers
  import opened MsgPack
  import opened GameModel
  import InfoModel

  /** `RDB_HEADER_SIZE`: the bytes before the first record. */
  const RDB_HEADER_SIZE: nat := 0x10

  /** The number of games `read_rdb_blocking` hands to the listener at once. */
  const BATCH: nat := 50

  // --------------------------------------------------------------- batches

  function Flatten<G>(bs: seq<seq<G>>): (r: seq<G>)
    decreases |bs|
  {
    if bs == [] then [] else bs[0] + Flatten(bs[1..])
  }

  /** Every batch holds exactly `BATCH` games. */
  predicate FullBatches<G>(bs: seq<seq<G>>)
  {
    forall k :: 0 <= k < |bs| ==> |bs[k]| == BATCH
  }

  /** The games cut into consecutive batches of `BATCH`; a shorter remainder is not a batch. */
  function Batches<G>(gs: seq<G>): (r: seq<seq<G>>)
    decreases |gs|
  {
    if |gs| < BATCH then [] else [gs[..BATCH]] + Batches(gs[BATCH..])
  }

  lemma {:induction false} FlattenSnoc<G>(bs: seq<seq<G>>, b: seq<G>)
    ensures Flatten(bs + [b]) == Flatten(bs) + b
    decreases |bs|
  {
    if bs == [] {
      assert [] + [b] == [b];
      assert Flatten([b]) == b + Flatten([b][1..]);
    } else {
      assert (bs + [b])[1..] == bs[1..] + [b];
      FlattenSnoc(bs[1..], b);
    }
  }

  lemma FullBatchesSnoc<G>(bs: seq<seq<G>>, b: seq<G>)
    requires FullBatches(bs) && |b| == BATCH
    ensures FullBatches(bs + [b])
  {
    assert forall k :: 0 <= k < |bs| ==> (bs + [b])[k] == bs[k];
  }

  /** Full batches followed by fewer than `BATCH` games cut back into those batches. */
  lemma {:induction false} BatchesOfFull<G>(bs: seq<seq<G>>, rest: seq<G>)
    requires FullBatches(bs) && |rest| < BATCH
    ensures Batches(Flatten(bs) + rest) == bs
    decreases |bs|
  {
    if bs == [] {
      assert Flatten(bs) + rest == rest;
    } else {
      var gs := Flatten(bs) + rest;
      assert gs == bs[0] + (Flatten(bs[1..]) + rest);
      assert gs[..BATCH] == bs[0];
      assert gs[BATCH..] == Flatten(bs[1..]) + rest;
      BatchesOfFull(bs[1..], rest);
    }
  }

  /** Every batch is full, and together they are the games up to the last multiple of `BATCH`. */
  lemma {:induction false} BatchesCover<G>(gs: seq<G>)
    ensures FullBatches(Batches(gs))
    ensures Flatten(Batches(gs)) == gs[..|gs| / BATCH * BATCH]
    decreases |gs|
  {
    if |gs| >= BATCH {
      BatchesCover(gs[BATCH..]);
      var tail := gs[BATCH..];
      assert |tail| / BATCH * BATCH + BATCH == |gs| / BATCH * BATCH;
      assert gs[..|gs| / BATCH * BATCH] == gs[..BATCH] + tail[..|tail| / BATCH * BATCH];
    }
  }

  lemma FloorBatch(n: nat)
    ensures 0 <= n - n / BATCH * BATCH < BATCH
  {
  }

  /** Fewer than `BATCH` games make no batch at all. */
  lemma ShortStreamNoBatch<G>(gs: seq<G>)
    requires |gs| < BATCH
    ensures Batches(gs) == []
  {
  }

  // ---------------------------------------------------------- the reader

  /** The games a file body decodes to, and the error decoding stopped with. */
  function Body(items: seq<Item>): (seq<GameInfo>, DecodeError)
  {
    Decode(DecodeItems(items))
  }

  /**
   * `read_rdb_blocking`: `file` is the outcome of reading the file and
   * `decoder` the MessagePack decoder, which sees only the bytes after the
   * header. The returned batches are the listener's `rdb_read` calls, in
   * order. Marker, data and syntax errors end the stream normally; any other
   * error is returned, after the batches already handed over.
   */
  method ReadRdbBlocking(file: Result<seq<byte>>, decoder: seq<byte> -> seq<Item>)
    returns (r: Result<Unit>, batches: seq<seq<GameInfo>>)
    ensures file.Err? ==> r == Err(file.msg) && batches == []
    ensures file.Ok? && |file.value| < RDB_HEADER_SIZE ==> r == Ok(Unit) && batches == []
    ensures file.Ok? && |file.value| >= RDB_HEADER_SIZE ==>
      var (games, stop) := Body(decoder(file.value[RDB_HEADER_SIZE..]));
      batches == Batches(games)
      && (r.Ok? <==> stop.EndsStream())
      && (r.Err? ==> r.msg == stop.msg)
  {
    batches := [];
    if file.Err? {
      return Err(file.msg), batches;
    }
    var data := file.value;
    if |data| < RDB_HEADER_SIZE {
      return Ok(Unit), batches;
    }
    var stop;
    stop, batches := Emit(DecodeItems(decoder(data[RDB_HEADER_SIZE..])));
    if stop.EndsStream() {
      r := Ok(Unit);
    } else {
      r := Err(stop.msg);
    }
  }

  /** Adding one game to the pending batch, flushing it once it is full, keeps what was handed over. */
  lemma EmitStep<G>(batches: seq<seq<G>>, pending: seq<G>, g: G)
    requires FullBatches(batches) && |pending| < BATCH
    ensures var p := pending + [g];
      |p| >= BATCH ==> FullBatches(batches + [p]) && Flatten(batches + [p]) + [] == Flatten(batches) + pending + [g]
    ensures Flatten(batches) + (pending + [g]) == Flatten(batches) + pending + [g]
  {
    var p := pending + [g];
    if |p| >= BATCH {
      FlattenSnoc(batches, p);
      FullBatchesSnoc(batches, p);
    }
  }

  /** A decoded outcome keeps the account of the emitting loop, with its game added to the pending batch. */
  lemma EmitAdvance<G>(outs: seq<Outcome<G>>, i: nat, done: seq<G>, batches: seq<seq<G>>, pending: seq<G>)
    requires i < |outs| && outs[i].Decoded?
    requires Decode(outs).0 == done + Decode(outs[i..]).0 && Decode(outs).1 == Decode(outs[i..]).1
    requires Flatten(batches) + pending == done && FullBatches(batches) && |pending| < BATCH
    ensures var g := outs[i].game;
      var p := pending + [g];
      Decode(outs).0 == (done + [g]) + Decode(outs[i + 1..]).0 && Decode(outs).1 == Decode(outs[i + 1..]).1
      && (|p| >= BATCH ==> FullBatches(batches + [p]) && Flatten(batches + [p]) + [] == done + [g])
      && Flatten(batches) + p == done + [g]
  {
    var g := outs[i].game;
    DecodeFrom(outs, i);
    var rest := Decode(outs[i + 1..]).0;
    assert done + ([g] + rest) == (done + [g]) + rest;
    EmitStep(batches, pending, g);
  }

  /**
   * The loop of `read_rdb_blocking` over the decoder's outcomes: games are
   * collected and handed over fifty at a time until the first error, which
   * is returned.
   */
  method Emit(outs: seq<Outcome<GameInfo>>) returns (stop: DecodeError, batches: seq<seq<GameInfo>>)
    ensures stop == Decode(outs).1
    ensures batches == Batches(Decode(outs).0)
  {
    batches := [];
    var gameOut: seq<GameInfo> := [];
    ghost var done: seq<GameInfo> := [];
    var i := 0;
    assert outs[i..] == outs;
    while i < |outs|
      invariant 0 <= i <= |outs|
      invariant Decode(outs).0 == done + Decode(outs[i..]).0
      invariant Decode(outs).1 == Decode(outs[i..]).1
      invariant Flatten(batches) + gameOut == done
      invariant FullBatches(batches) && |gameOut| < BATCH
    {
      var o := outs[i];
      DecodeFrom(outs, i);
      if o.Failed? {
        assert Decode(outs).0 == done;
        BatchesOfFull(batches, gameOut);
        return o.err, batches;
      }
      EmitAdvance(outs, i, done, batches, gameOut);
      gameOut := gameOut + [o.game];
      done := done + [o.game];
      if |gameOut| >= BATCH {
        batches := batches + [gameOut];
        gameOut := [];
      }
      i := i + 1;
    }
    assert outs[i..] == [];
    assert Decode(outs[i..]) == ([], InvalidMarkerRead);
    assert Decode(outs).0 == done;
    BatchesOfFull(batches, gameOut);
    stop := InvalidMarkerRead;
  }

  /** A file holding a single record hands nothing to the listener, although that record decodes. */
  lemma SingleRecordNeverEmitted()
    ensures var items := [Record(Map([]))];
      Body(items).0 == [DEFAULT_GAME] && Batches(Body(items).0) == []
  {
    var items := [Record(Map([]))];
    assert DecodeItems(items)[0] == Decoded(DEFAULT_GAME);
    assert DecodeItems(items)[1..] == [];
  }

  /**
   * The batches a reader that also flushes its remainder would hand over:
   * the full batches, then what is left when it is not empty.
   */
  function BatchesFlushed<G>(gs: seq<G>): seq<seq<G>>
  {
    var full := |gs| / BATCH * BATCH;
    Batches(gs) + (if full < |gs| then [gs[full..]] else [])
  }

  /** Flushing the remainder hands over every decoded game, in order, in batches of 1 to `BATCH`. */
  lemma FlushedCoversAll<G>(gs: seq<G>)
    ensures Flatten(BatchesFlushed(gs)) == gs
    ensures forall k :: 0 <= k < |BatchesFlushed(gs)| ==> 0 < |BatchesFlushed(gs)[k]| <= BATCH
  {
    BatchesCover(gs);
    var full := |gs| / BATCH * BATCH;
    if full < |gs| {
      FlattenSnoc(Batches(gs), gs[full..]);
      assert gs[..full] + gs[full..] == gs;
    } else {
      FloorBatch(|gs|);
      assert full == |gs|;
      assert gs[..full] == gs;
      assert BatchesFlushed(gs) == Batches(gs);
    }
  }

  // ------------------------------------------------------ rdb file paths

  /** The file `read_rdb_from_cores` reads for one database name. */
  function RdbPath(dir: string, name: string): string
  {
    dir + "/" + name + ".rdb"
  }

  /** The set of rdb files `read_rdb_from_cores` reads: one per database name of any core. */
  function RdbPaths(cores: seq<InfoModel.CoreInfo>, dir: string): set<string>
  {
    set i, n | 0 <= i < |cores| && n in cores[i].database :: RdbPath(dir, n)
  }

  /** The paths are exactly those of the names `get_rdb_names` reports. */
  lemma RdbPathsOfNames(cores: seq<InfoModel.CoreInfo>, dir: string, p: string)
    ensures p in RdbPaths(cores, dir) <==> exists n :: n in InfoModel.AllRdbNames(cores) && p == RdbPath(dir, n)
  {
    if p in RdbPaths(cores, dir) {
      var i, n :| 0 <= i < |cores| && n in cores[i].database && p == RdbPath(dir, n);
      InfoModel.AllRdbNamesMembers(cores, n);
    }
    if exists n :: n in InfoModel.AllRdbNames(cores) && p == RdbPath(dir, n) {
      var n :| n in InfoModel.AllRdbNames(cores) && p == RdbPath(dir, n);
      InfoModel.AllRdbNamesMembers(cores, n);
    }
  }

  /** Different names give different paths, so every name is read once. */
  lemma RdbPathInjective(dir: string, a: string, b: string)
    requires RdbPath(dir, a) == RdbPath(dir, b)
    ensures a == b
  {
    var pa, pb := RdbPath(dir, a), RdbPath(dir, b);
    assert |a| == |b|;
    assert a == pa[|dir| + 1..|pa| - 4];
    assert b == pb[|dir| + 1..|pb| - 4];
  }
}
