/**
 * The audio/video description a core reports (`AvInfo`): frame geometry,
 * pixel format, frame rate and audio sample rate, with the setters the
 * environment callback and `load_game` use.
 */
module AvInfo {
  import opened Wrappers
  import opened Ints
  import Validation
  import GraphicApi

  // retro_pixel_format, as numbered in libretro.h.
  const PIXEL_FORMAT_0RGB1555: u32 := 0
  const PIXEL_FORMAT_XRGB8888: u32 := 1
  const PIXEL_FORMAT_RGB565: u32 := 2
  const PIXEL_FORMAT_UNKNOWN: u32 := 0x7fff_ffff

  /** `retro_game_geometry`; the `f32` aspect ratio is kept as an opaque real. */
  datatype Geometry = Geometry(baseWidth: u32, baseHeight: u32, maxWidth: u32, maxHeight: u32, aspectRatio: real)

  /** `retro_system_timing`: both fields are `f64` in the C struct. */
  datatype RawTiming = RawTiming(fps: real, sampleRate: real)

  /** `retro_system_av_info`. */
  datatype RawAvInfo = RawAvInfo(geometry: Geometry, timing: RawTiming)

  const ZERO_GEOMETRY := Geometry(0, 0, 0, 0, 0.0)

  /** Rust's saturating `f64 as u32`: negatives go to 0, the fraction is dropped, large values stop at `u32::MAX`. */
  function SaturatingU32(x: real): (r: u32)
    ensures x <= 0.0 ==> r == 0
    ensures 0.0 <= x < 4294967295.0 ==> r as real <= x < r as real + 1.0
    ensures x >= 4294967295.0 ==> r == 0xffff_ffff
  {
    if x <= 0.0 then 0
    else if x >= 4294967295.0 then 0xffff_ffff
    else x.Floor
  }

  /** The sample-rate gate after the cast: exactly the rates in [8000, 192001) pass. */
  lemma SampleRateGate(x: real)
    ensures Validation.ValidateSampleRate(SaturatingU32(x)).Ok? <==> 8000.0 <= x < 192001.0
  {
    var r := SaturatingU32(x);
    if 0.0 < x < 4294967295.0 {
      assert r as real <= x < r as real + 1.0;
      assert 8000 <= r <= 192000 <==> 8000.0 <= x < 192001.0 by {
        if 8000 <= r <= 192000 {
          assert 8000.0 <= r as real;
          assert r as real + 1.0 <= 192001.0;
        }
        if 8000.0 <= x < 192001.0 {
          assert 7999.0 < r as real;
          assert r as real < 192001.0;
        }
      }
    }
  }

  /** The values an `AvInfo` holds besides its graphic API. */
  datatype State = State(canDupe: bool, pixelFormat: u32, geometry: Geometry, fps: real, sampleRate: u32)

  class AvInfo {
    var canDupe: bool
    var pixelFormat: u32
    var geometry: Geometry
    var fps: real
    var sampleRate: u32
    const graphicApi: GraphicApi.GraphicApi

    function Current(): State
      reads this
    {
      State(canDupe, pixelFormat, geometry, fps, sampleRate)
    }

    /** `AvInfo::new(api)`: zero geometry and timing, unknown pixel format, no frame duping. */
    constructor (api: GraphicApi.GraphicApi)
      ensures graphicApi == api
      ensures !canDupe && pixelFormat == PIXEL_FORMAT_UNKNOWN
      ensures geometry == ZERO_GEOMETRY && fps == 0.0 && sampleRate == 0
    {
      graphicApi := api;
      canDupe := false;
      pixelFormat := PIXEL_FORMAT_UNKNOWN;
      geometry := ZERO_GEOMETRY;
      fps := 0.0;
      sampleRate := 0;
    }

    /** `try_set_new_geometry`: every geometry field is replaced by the core's value; nothing else changes. */
    method TrySetNewGeometry(raw: Geometry) returns (r: Result<Unit>)
      modifies this
      ensures r.Ok?
      ensures geometry == raw
      ensures canDupe == old(canDupe) && pixelFormat == old(pixelFormat)
      ensures fps == old(fps) && sampleRate == old(sampleRate)
    {
      geometry := geometry.(aspectRatio := raw.aspectRatio);
      geometry := geometry.(baseHeight := raw.baseHeight);
      geometry := geometry.(baseWidth := raw.baseWidth);
      geometry := geometry.(maxHeight := raw.maxHeight);
      geometry := geometry.(maxWidth := raw.maxWidth);
      r := Ok(Unit);
    }

    /**
     * `_set_timing`: a null pointer is an error that changes nothing. Otherwise
     * the frame rate is stored first, and the sample rate only if it passes the
     * gate, so a rejected rate still leaves the new frame rate behind.
     */
    method SetTiming(timing: Option<RawTiming>) returns (r: Result<Unit>)
      modifies this
      ensures timing.None? ==> r.Err? && fps == old(fps) && sampleRate == old(sampleRate)
      ensures timing.Some? ==> fps == timing.value.fps
      ensures timing.Some? ==>
        (r.Ok? <==> Validation.ValidateSampleRate(SaturatingU32(timing.value.sampleRate)).Ok?)
      ensures r.Ok? ==> sampleRate == SaturatingU32(timing.value.sampleRate)
      ensures r.Err? ==> sampleRate == old(sampleRate)
      ensures canDupe == old(canDupe) && pixelFormat == old(pixelFormat) && geometry == old(geometry)
    {
      if timing.None? {
        return Err("raw_system_timing");
      }
      var t := timing.value;
      fps := t.fps;
      var rate := SaturatingU32(t.sampleRate);
      var gate := Validation.ValidateSampleRate(rate);
      if gate.Err? {
        return Err(gate.msg);
      }
      sampleRate := rate;
      r := Ok(Unit);
    }

    /**
     * `update_av_info`, given what the core's `retro_get_system_av_info`
     * reports: the geometry is applied first, then the timing, so a rejected
     * sample rate keeps the new geometry and frame rate.
     */
    method UpdateAvInfo(reported: RawAvInfo) returns (r: Result<Unit>)
      modifies this
      ensures geometry == reported.geometry && fps == reported.timing.fps
      ensures r.Ok? <==> 8000.0 <= reported.timing.sampleRate < 192001.0
      ensures sampleRate == if r.Ok? then SaturatingU32(reported.timing.sampleRate) else old(sampleRate)
      ensures canDupe == old(canDupe) && pixelFormat == old(pixelFormat)
    {
      var g := TrySetNewGeometry(reported.geometry);
      assert g.Ok?;  // the geometry setter cannot fail once locks are plain cells
      SampleRateGate(reported.timing.sampleRate);
      r := SetTiming(Some(reported.timing));
    }
  }
}
