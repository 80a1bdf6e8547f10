/** `env_cb_av`: the environment commands about video geometry, pixel format and hardware rendering. */
module EnvVideo {
  import opened Wrappers
  import opened Ints
  import opened Environment
  import AvInfo
  import GraphicApi

  /** The audio-and-video-enabled bits written for GET_AUDIO_VIDEO_ENABLE: bit 0 video, bit 1 audio. */
  const AUDIO_VIDEO_ENABLE: u32 := 3

  /**
   * `env_cb_av`. `hw` says whether the frontend is built with hardware
   * rendering, which adds GET_PREFERRED_HW_RENDER and SET_HW_RENDER.
   */
  method EnvCbAv(av: AvInfo.AvInfo, cmd: u32, data: Payload, hw: bool) returns (reply: Reply)
    requires Fits(cmd, data)
    modifies av, av.graphicApi
    ensures reply.optionCalls == []
    ensures cmd == SET_GEOMETRY ==>
      if data.Null? then reply.result.Err? && reply.written == Nothing && av.Current() == old(av.Current())
      else reply == Reply(Ok(true), Nothing, []) && av.Current() == old(av.Current()).(geometry := data.geometry)
    ensures cmd == SET_PIXEL_FORMAT ==>
      if data.Null? then reply.result.Err? && reply.written == Nothing && av.Current() == old(av.Current())
      else reply == Reply(Ok(true), Nothing, []) && av.Current() == old(av.Current()).(pixelFormat := data.format)
    ensures cmd == GET_AUDIO_VIDEO_ENABLE ==>
      reply == Reply(Ok(true), U32Written(AUDIO_VIDEO_ENABLE), []) && av.Current() == old(av.Current())
    ensures hw && cmd == GET_PREFERRED_HW_RENDER ==>
      reply == Reply(Ok(true), U32Written(av.graphicApi.contextType), []) && av.Current() == old(av.Current())
    ensures hw && cmd == SET_HW_RENDER ==>
      if data.Null? then reply == NOT_HANDLED
      else (reply == Reply(Ok(true), HwCallbacksWritten, [])
            && av.graphicApi.Current() == GraphicApi.Updated(old(av.graphicApi.Current()), data.hw))
    ensures av.Current() != old(av.Current()) ==> cmd in {SET_GEOMETRY, SET_PIXEL_FORMAT}
    ensures av.graphicApi.Current() != old(av.graphicApi.Current()) ==> hw && cmd == SET_HW_RENDER
    ensures (cmd !in {SET_GEOMETRY, SET_PIXEL_FORMAT, GET_AUDIO_VIDEO_ENABLE}
             && !(hw && cmd in {GET_PREFERRED_HW_RENDER, SET_HW_RENDER}))
         ==> reply == NOT_HANDLED
  {
    if cmd == SET_GEOMETRY {
      if data.Null? {
        return Reply(Err("ptr data in RETRO_ENVIRONMENT_SET_GEOMETRY"), Nothing, []);
      }
      var r := av.TrySetNewGeometry(data.geometry);
      assert r.Ok?;
      reply := Reply(Ok(true), Nothing, []);
    } else if cmd == SET_PIXEL_FORMAT {
      if data.Null? {
        return Reply(Err("ptr data in RETRO_ENVIRONMENT_SET_PIXEL_FORMAT"), Nothing, []);
      }
      av.pixelFormat := data.format;
      reply := Reply(Ok(true), Nothing, []);
    } else if cmd == GET_AUDIO_VIDEO_ENABLE {
      reply := Reply(Ok(true), U32Written(AUDIO_VIDEO_ENABLE), []);
    } else if hw && cmd == GET_PREFERRED_HW_RENDER {
      reply := Reply(Ok(true), U32Written(av.graphicApi.contextType), []);
    } else if hw && cmd == SET_HW_RENDER {
      if data.Null? {
        return NOT_HANDLED;
      }
      var ok := av.graphicApi.TryUpdateFromRaw(data.hw);
      reply := Reply(Ok(ok), HwCallbacksWritten, []);
    } else {
      reply := NOT_HANDLED;
    }
  }
}
