/**
 * `AudioDriver`: the second audio output, whose device callback drains the
 * same kind of FIFO (`Audios.AudioNewFrame.FillOutput`) and whose
 * `add_sample` feeds it.
 */
module AudioDriver {
  import opened Ints
  import Audios

  /** `add_sample`: the samples go to the back of the FIFO in order; `frames` is set to what the caller says. */
  method AddSample(buffer: Audios.AudioNewFrame, samples: seq<i16>, frames: nat)
    modifies buffer
    ensures buffer.data == old(buffer.data) + samples
    ensures buffer.frames == frames
  {
    buffer.data := buffer.data + samples;
    buffer.frames := frames;
  }
}
