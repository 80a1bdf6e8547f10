/**
 * The hardware-rendering context the frontend keeps for a core
 * (`GraphicApi`): which API the core asked for and the flags and version it
 * sent with `SET_HW_RENDER`.
 */
module GraphicApi {
  import opened Ints
  import opened Wrappers

  // retro_hw_context_type, as numbered in libretro.h.
  const HW_CONTEXT_NONE: u32 := 0
  const HW_CONTEXT_OPENGL: u32 := 1
  const HW_CONTEXT_OPENGLES2: u32 := 2
  const HW_CONTEXT_OPENGL_CORE: u32 := 3
  const HW_CONTEXT_OPENGLES3: u32 := 4
  const HW_CONTEXT_OPENGLES_VERSION: u32 := 5
  const HW_CONTEXT_VULKAN: u32 := 6
  const HW_CONTEXT_D3D11: u32 := 7
  const HW_CONTEXT_D3D10: u32 := 8
  const HW_CONTEXT_D3D12: u32 := 9
  const HW_CONTEXT_D3D9: u32 := 10

  /** The fields of a core's `retro_hw_render_callback` that the frontend reads. */
  datatype HwRenderRequest = HwRenderRequest(
    contextType: u32,
    depth: bool,
    stencil: bool,
    bottomLeftOrigin: bool,
    versionMajor: u32,
    versionMinor: u32,
    cacheContext: bool,
    debugContext: bool)

  /** Everything a `GraphicApi` holds, as one value. */
  datatype Settings = Settings(
    contextType: u32,
    fbo: Option<nat>,
    depth: bool,
    stencil: bool,
    bottomLeftOrigin: bool,
    major: u8,
    minor: u8,
    cacheContext: bool,
    debugContext: bool)

  /** The settings of `GraphicApi::with(t)`: every flag off, versions 0, no framebuffer. */
  function Initial(t: u32): (s: Settings)
    ensures s.contextType == t && s.fbo == None && s.major == 0 && s.minor == 0
    ensures !s.depth && !s.stencil && !s.bottomLeftOrigin && !s.cacheContext && !s.debugContext
  {
    Settings(t, None, false, false, false, 0, 0, false, false)
  }

  /** The settings after `try_update_from_raw(hw)`. */
  function Updated(s: Settings, hw: HwRenderRequest): (r: Settings)
    ensures r.contextType == s.contextType && r.fbo == s.fbo
    ensures r.depth == hw.depth && r.stencil == hw.stencil && r.bottomLeftOrigin == hw.bottomLeftOrigin
    ensures r.cacheContext == hw.cacheContext && r.debugContext == hw.debugContext
    ensures r.major == hw.versionMajor % 0x100 && r.minor == hw.versionMinor % 0x100
  {
    s.(depth := hw.depth, stencil := hw.stencil, bottomLeftOrigin := hw.bottomLeftOrigin,
       minor := WrapU8(hw.versionMinor), major := WrapU8(hw.versionMajor),
       cacheContext := hw.cacheContext, debugContext := hw.debugContext)
  }

  /** Applying the same request twice is the same as applying it once. */
  lemma UpdatedIdempotent(s: Settings, hw: HwRenderRequest)
    ensures Updated(Updated(s, hw), hw) == Updated(s, hw)
  {
  }

  /** Only the last request counts: an update overwrites every field an earlier one set. */
  lemma UpdatedOverwrites(s: Settings, a: HwRenderRequest, b: HwRenderRequest)
    ensures Updated(Updated(s, a), b) == Updated(s, b)
  {
  }

  /** The context type a core asks for is never taken over by the update. */
  lemma UpdatedIgnoresRequestedContext(s: Settings, hw: HwRenderRequest, t: u32)
    ensures Updated(s, hw) == Updated(s, hw.(contextType := t))
  {
  }

  class GraphicApi {
    const contextType: u32
    var fbo: Option<nat>
    var depth: bool
    var stencil: bool
    var bottomLeftOrigin: bool
    var major: u8
    var minor: u8
    var cacheContext: bool
    var debugContext: bool

    function Current(): Settings
      reads this
    {
      Settings(contextType, fbo, depth, stencil, bottomLeftOrigin, major, minor, cacheContext, debugContext)
    }

    /** `GraphicApi::default`: an OpenGL context. */
    constructor Default()
      ensures Current() == Initial(HW_CONTEXT_OPENGL)
    {
      contextType := HW_CONTEXT_OPENGL;
      fbo := None;
      depth := false;
      stencil := false;
      bottomLeftOrigin := false;
      major := 0;
      minor := 0;
      cacheContext := false;
      debugContext := false;
    }

    /** `GraphicApi::with(t)`: the default with context type `t`. */
    constructor With(t: u32)
      ensures Current() == Initial(t)
    {
      contextType := t;
      fbo := None;
      depth := false;
      stencil := false;
      bottomLeftOrigin := false;
      major := 0;
      minor := 0;
      cacheContext := false;
      debugContext := false;
    }

    /** `try_update_from_raw`: stores the request's flags and versions, and always reports success. */
    method TryUpdateFromRaw(hw: HwRenderRequest) returns (ok: bool)
      modifies this
      ensures ok
      ensures Current() == Updated(old(Current()), hw)
    {
      depth := hw.depth;
      stencil := hw.stencil;
      bottomLeftOrigin := hw.bottomLeftOrigin;
      minor := WrapU8(hw.versionMinor);
      major := WrapU8(hw.versionMajor);
      cacheContext := hw.cacheContext;
      debugContext := hw.debugContext;
      ok := true;
    }
  }
}
