/**
 * What the MessagePack decoder of an RDB file hands to the readers: values,
 * the kinds of error it stops with, and the loop that reads records until
 * the first error.
 */
module MsgPack {
  import opened Wrappers

  /** A decoded MessagePack value. */
  datatype MsgValue =
    | Nil
    | Bool(b: bool)
    | Int(n: int)
    | Float
    | Str(s: string)
    | Bin(bytes: seq<byte>)
    | Array(items: seq<MsgValue>)
    | Map(entries: seq<(MsgValue, MsgValue)>)

  /**
   * The variants of `rmp_serde::decode::Error` the readers tell apart. A
   * type mismatch reported by a visitor is a `Syntax` error, since serde's
   * `de::Error::custom` builds one.
   */
  datatype DecodeError =
    | InvalidMarkerRead
    | InvalidDataRead
    | Syntax(msg: string)
    | Other(msg: string)
  {
    /** The errors the readers treat as the end of the stream. */
    predicate EndsStream()
    {
      InvalidMarkerRead? || InvalidDataRead? || Syntax?
    }
  }

  /** One step of the decoder over the file body: a raw record or the error it stopped on. */
  datatype Item = Record(value: MsgValue) | Fail(err: DecodeError)

  /** One call of `T::deserialize`: a decoded record or an error. */
  datatype Outcome<G> = Decoded(game: G) | Failed(err: DecodeError)

  /**
   * The records decoded before the first error, and that error. A stream
   * that runs out is reported as `InvalidMarkerRead`, which is what reading
   * a marker past the end of the input gives.
   */
  function Decode<G>(outs: seq<Outcome<G>>): (r: (seq<G>, DecodeError))
    decreases |outs|
  {
    if outs == [] then ([], InvalidMarkerRead)
    else match outs[0]
      case Failed(e) => ([], e)
      case Decoded(g) =>
        var rest := Decode(outs[1..]);
        ([g] + rest.0, rest.1)
  }

  /**
   * The games are the outcomes in front of the first failure, and the error
   * is that failure's, or `InvalidMarkerRead` when none fails.
   */
  lemma {:induction false} DecodeSpec<G>(outs: seq<Outcome<G>>)
    ensures var r := Decode(outs);
      |r.0| <= |outs|
      && (forall k :: 0 <= k < |r.0| ==> outs[k] == Decoded(r.0[k]))
      && (|r.0| < |outs| ==> outs[|r.0|] == Failed(r.1))
      && (|r.0| == |outs| ==> r.1 == InvalidMarkerRead)
    decreases |outs|
  {
    if outs != [] && outs[0].Decoded? {
      DecodeSpec(outs[1..]);
    }
  }

  /** The decoded prefix is the longest run of `Decoded` outcomes at the front. */
  lemma {:induction false} DecodePrefix<G>(outs: seq<Outcome<G>>, i: nat)
    requires i <= |outs|
    requires forall k :: 0 <= k < i ==> outs[k].Decoded?
    requires i == |outs| || outs[i].Failed?
    ensures |Decode(outs).0| == i
  {
    if i > 0 {
      assert forall k :: 0 <= k < |outs| - 1 ==> outs[1..][k] == outs[k + 1];
      DecodePrefix(outs[1..], i - 1);
    }
  }

  /** One step of `Decode` from position `i`. */
  lemma DecodeFrom<G>(outs: seq<Outcome<G>>, i: nat)
    requires i < |outs|
    ensures outs[i].Failed? ==> Decode(outs[i..]) == ([], outs[i].err)
    ensures outs[i].Decoded? ==>
      Decode(outs[i..]).0 == [outs[i].game] + Decode(outs[i + 1..]).0 && Decode(outs[i..]).1 == Decode(outs[i + 1..]).1
  {
    assert outs[i..][0] == outs[i] && outs[i..][1..] == outs[i + 1..];
  }
}
