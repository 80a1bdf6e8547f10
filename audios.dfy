/**
 * The audio path between core and output device (`AudioNewFrame` and the
 * callbacks around it): the core's samples are appended to a FIFO of
 * interleaved `i16` samples, and the device's output callback drains that
 * FIFO into its buffer, filling the rest with silence.
 */
module Audios {
  import opened Wrappers
  import opened Ints

  function Silence(n: nat): (r: seq<i16>)
    ensures |r| == n && forall k :: 0 <= k < n ==> r[k] == 0
  {
    seq(n, _ => 0)
  }

  function Min(a: nat, b: nat): nat { if a < b then a else b }

  class AudioNewFrame {
    var data: seq<i16>
    var frames: nat
    const channel: u16

    /** An empty FIFO for a device with `channel` output channels. */
    constructor (channel: u16)
      ensures data == [] && frames == 0 && this.channel == channel
    {
      data := [];
      frames := 0;
      this.channel := channel;
    }

    /** `audio_sample_callback`: one stereo frame goes to the back; `frames` counts the stereo frames held. */
    method AudioSample(left: i16, right: i16)
      modifies this
      ensures data == old(data) + [left, right]
      ensures frames == |data| / 2
    {
      data := data + [left, right];
      frames := |data| / 2;
    }

    /**
     * `audio_sample_batch_callback`: `samples` is the core's pointer, holding
     * `2 * count` interleaved samples when it is not null. A null pointer
     * changes nothing and reports 0 frames.
     */
    method AudioSampleBatch(samples: Option<seq<i16>>, count: nat) returns (taken: nat)
      requires samples.Some? ==> |samples.value| == 2 * count
      modifies this
      ensures samples.None? ==> taken == 0 && data == old(data) && frames == old(frames)
      ensures samples.Some? ==> taken == count && data == old(data) + samples.value && frames == count
    {
      if samples.None? {
        return 0;
      }
      data := data + samples.value;
      frames := count;
      taken := count;
    }

    /**
     * The output stream's data callback. With nothing buffered (or `frames`
     * at 0) the device gets silence and the FIFO is kept. Otherwise the
     * oldest samples fill the front of the device buffer in order and leave
     * the FIFO, the rest of the device buffer is silenced, and `frames` is
     * recomputed from what remains.
     */
    method FillOutput(out: array<i16>)
      requires channel > 0
      modifies this, out
      ensures old(data) == [] || old(frames) == 0 ==>
        out[..] == Silence(out.Length) && data == old(data) && frames == old(frames)
      ensures old(data) != [] && old(frames) != 0 ==>
        var n := Min(out.Length, |old(data)|);
        out[..] == old(data)[..n] + Silence(out.Length - n)
        && data == old(data)[n..]
        && out[..n] + data == old(data)
        && frames == |data| / channel as nat
    {
      if data == [] || frames == 0 {
        FillZero(out, 0);
        return;
      }
      var len := DrainInto(out, data);
      assert data[..len] + data[len..] == data;
      data := data[len..];
      frames := |data| / channel as nat;
    }
  }

  /** The oldest `n` samples of `src` fill the front of `out`, and the rest of `out` is silenced. */
  method DrainInto(out: array<i16>, src: seq<i16>) returns (n: nat)
    modifies out
    ensures n == Min(out.Length, |src|)
    ensures out[..] == src[..n] + Silence(out.Length - n)
  {
    n := Min(out.Length, |src|);
    CopyInto(out, src[..n]);
    if n < out.Length {
      FillZero(out, n);
    }
    assert out[..] == out[..n] + out[n..];
  }

  /** The drain loop: `src` goes, in order, to the front of `out`. */
  method CopyInto(out: array<i16>, src: seq<i16>)
    requires |src| <= out.Length
    modifies out
    ensures out[..|src|] == src
    ensures out[|src|..] == old(out[|src|..])
  {
    var i := 0;
    while i < |src|
      invariant 0 <= i <= |src|
      invariant out[..i] == src[..i]
      invariant out[|src|..] == old(out[|src|..])
    {
      out[i] := src[i];
      i := i + 1;
    }
  }

  /** `data[from..].fill(0)`. */
  method FillZero(out: array<i16>, from: nat)
    requires from <= out.Length
    modifies out
    ensures out[..from] == old(out[..from])
    ensures out[from..] == Silence(out.Length - from)
  {
    var i := from;
    while i < out.Length
      invariant from <= i <= out.Length
      invariant out[..from] == old(out[..from])
      invariant forall k :: from <= k < i ==> out[k] == 0
    {
      out[i] := 0;
      i := i + 1;
    }
  }
}
