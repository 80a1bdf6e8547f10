/**
 * `database::rdb::parse_rdb`: every record of an RDB file decoded into a
 * vector, from the byte after the 16-byte header until the decoder stops.
 */
module Rdb {
  import opened Wrappers
  import opened MsgPack

  /** The bytes of the header in front of the first record. */
  const HEADER: nat := 0x10

  /**
   * `parse_rdb` over the file's bytes: `decoder` gives the outcome of each
   * successive `deserialize` call on the bytes after the header. The slice
   * `&data[0x10..]` panics on a shorter file, so that is the precondition.
   * Marker, data and syntax errors end the loop with every game so far;
   * any other error is returned instead of the games.
   */
  method ParseRdb<G>(data: seq<byte>, decoder: seq<byte> -> seq<Outcome<G>>) returns (r: Result<seq<G>>)
    requires |data| >= HEADER
    ensures var (games, stop) := Decode(decoder(data[HEADER..]));
      (r.Ok? <==> stop.EndsStream())
      && (r.Ok? ==> r.value == games)
      && (r.Err? ==> r.msg == stop.msg)
  {
    var outs := decoder(data[HEADER..]);
    var games: seq<G> := [];
    var i := 0;
    assert outs[i..] == outs;
    while i < |outs|
      invariant 0 <= i <= |outs|
      invariant Decode(outs).0 == games + Decode(outs[i..]).0
      invariant Decode(outs).1 == Decode(outs[i..]).1
    {
      DecodeFrom(outs, i);
      if outs[i].Failed? {
        assert Decode(outs).0 == games;
        if outs[i].err.EndsStream() {
          return Ok(games);
        }
        return Err(outs[i].err.msg);
      }
      var game := outs[i].game;
      assert games + ([game] + Decode(outs[i + 1..]).0) == (games + [game]) + Decode(outs[i + 1..]).0;
      games := games + [game];
      i := i + 1;
    }
    assert outs[i..] == [];
    assert Decode(outs).0 == games;
    r := Ok(games);
  }

  /** A well-formed file yields every game it holds: the decoded ones before the stream runs out. */
  lemma WholeStreamDecoded<G>(games: seq<G>)
    ensures Decode(seq(|games|, k requires 0 <= k < |games| => Decoded(games[k]))) == (games, InvalidMarkerRead)
  {
    var outs := seq(|games|, k requires 0 <= k < |games| => Decoded(games[k]));
    DecodeSpec(outs);
    DecodePrefix(outs, |games|);
    var r := Decode(outs);
    assert forall k :: 0 <= k < |games| ==> outs[k] == Decoded(r.0[k]) && r.0[k] == games[k];
    assert r.0 == games;
  }
}
