/**
 * What the three environment routers share: the libretro command codes they
 * answer, the payload a core passes behind its `void *data`, and what a
 * router hands back.
 */
module Environment {
  import opened Wrappers
  import opened Ints
  import AvInfo
  import GraphicApi
  import Validation

  // RETRO_ENVIRONMENT_* codes, as numbered in libretro.h.
  const EXPERIMENTAL: u32 := 0x1_0000
  const GET_SYSTEM_DIRECTORY: u32 := 9
  const SET_PIXEL_FORMAT: u32 := 10
  const SET_HW_RENDER: u32 := 14
  const GET_VARIABLE: u32 := 15
  const SET_VARIABLES: u32 := 16
  const GET_VARIABLE_UPDATE: u32 := 17
  const GET_CORE_ASSETS_DIRECTORY: u32 := 30
  const GET_SAVE_DIRECTORY: u32 := 31
  const SET_SUBSYSTEM_INFO: u32 := 34
  const SET_GEOMETRY: u32 := 37
  const GET_VFS_INTERFACE: u32 := 45 + EXPERIMENTAL
  const GET_AUDIO_VIDEO_ENABLE: u32 := 47 + EXPERIMENTAL
  const GET_CORE_OPTIONS_VERSION: u32 := 52
  const SET_CORE_OPTIONS_INTL: u32 := 54
  const SET_CORE_OPTIONS_DISPLAY: u32 := 55
  const GET_PREFERRED_HW_RENDER: u32 := 56
  const SET_CORE_OPTIONS_V2_INTL: u32 := 68
  const SET_CORE_OPTIONS_UPDATE_DISPLAY_CALLBACK: u32 := 69
  const SET_VARIABLE: u32 := 70

  /** The `void *data` of an environment call: null, a cell to answer into, or the struct the command reads. */
  datatype Payload =
    | Null
    | Cell
    | GeometryData(geometry: AvInfo.Geometry)
    | PixelFormatData(format: u32)
    | HwRenderData(hw: GraphicApi.HwRenderRequest)
    | OptionsV2Data
    | DisplayData(displayKey: Validation.CPtr, visible: bool)
    | VariableData(variableKey: string)
    | SubsystemData

  /** What the frontend wrote back through the payload. */
  datatype Written =
    | Nothing
    | U32Written(n: u32)
    | BoolWritten(b: bool)
    | StringWritten(bytes: seq<byte>)
    | HwCallbacksWritten

  /** The calls a router makes on the option manager; their own results are discarded. */
  datatype OptionCall =
    | ConvertOptionV2Intl
    | TryReloadPrefOption
    | ChangeVisibility(key: string, visible: bool)

  /** A router's answer: handled (`Ok(true)`), not handled (`Ok(false)`) or an error, and its side effects. */
  datatype Reply = Reply(result: Result<bool>, written: Written, optionCalls: seq<OptionCall>)

  /**
   * The payload a core must pass with each command: a pointer the handler
   * dereferences without a null check must point to the right struct; a
   * checked pointer may also be null.
   */
  predicate Fits(cmd: u32, data: Payload)
  {
    if cmd == SET_GEOMETRY then data.Null? || data.GeometryData?
    else if cmd == SET_PIXEL_FORMAT then data.Null? || data.PixelFormatData?
    else if cmd == SET_HW_RENDER then data.Null? || data.HwRenderData?
    else if cmd == SET_CORE_OPTIONS_V2_INTL then data.Null? || data.OptionsV2Data?
    else if cmd == SET_CORE_OPTIONS_DISPLAY then data.Null? || data.DisplayData?
    else if cmd == GET_VARIABLE then data.Null? || data.VariableData?
    else if cmd == SET_SUBSYSTEM_INFO then data.SubsystemData?
    else if cmd in {GET_AUDIO_VIDEO_ENABLE, GET_PREFERRED_HW_RENDER, GET_CORE_OPTIONS_VERSION,
                    GET_VARIABLE_UPDATE, GET_SYSTEM_DIRECTORY, GET_SAVE_DIRECTORY, GET_CORE_ASSETS_DIRECTORY}
    then data.Cell?
    else true
  }

  /** The reply for a command a router does not know. */
  const NOT_HANDLED := Reply(Ok(false), Nothing, [])
}
