/** `env_cb_option`: the environment commands about core options and variables. */
module EnvOption {
  import opened Wrappers
  import opened Ints
  import opened Environment
  import Validation
  import Utf8
  import Text

  /** The core-options API version the frontend reports. */
  const CORE_OPTIONS_VERSION: u32 := 2

  /** Longest option key, in bytes, that SET_CORE_OPTIONS_DISPLAY reads. */
  const MAX_DISPLAY_KEY_BYTES: nat := 255

  /** What the router reads from the option manager: its update counter and the current option values. */
  datatype OptionsView = OptionsView(updatedCount: nat, values: map<string, string>)

  /** The commands this router answers with `Ok(true)` on some payload. */
  const OPTION_COMMANDS: set<u32> := {GET_CORE_OPTIONS_VERSION, SET_CORE_OPTIONS_V2_INTL,
    SET_CORE_OPTIONS_DISPLAY, GET_VARIABLE_UPDATE, GET_VARIABLE}

  /** `env_cb_option`. */
  function EnvCbOption(opts: OptionsView, cmd: u32, data: Payload): (reply: Reply)
    requires Fits(cmd, data)
    ensures reply.written != Nothing ==> reply.result == Ok(true)
    ensures reply.optionCalls != [] ==> reply.result == Ok(true)
    ensures cmd !in OPTION_COMMANDS ==> reply == NOT_HANDLED
    ensures reply.result.Err? <==>
      ((cmd == SET_CORE_OPTIONS_V2_INTL || cmd == SET_CORE_OPTIONS_DISPLAY) && data.Null?)
      || (cmd == SET_CORE_OPTIONS_DISPLAY && data.DisplayData?
          && Validation.ReadSafeCString(data.displayKey, MAX_DISPLAY_KEY_BYTES).Err?)
      || (cmd == GET_VARIABLE && data.VariableData? && data.variableKey in opts.values
          && Validation.CreateSafeCString(opts.values[data.variableKey]).Err?)
  {
    if cmd == GET_CORE_OPTIONS_VERSION then
      Reply(Ok(true), U32Written(CORE_OPTIONS_VERSION), [])
    else if cmd == SET_CORE_OPTIONS_INTL then
      NOT_HANDLED
    else if cmd == SET_CORE_OPTIONS_V2_INTL then
      if data.Null? then Reply(Err("ptr data in RETRO_ENVIRONMENT_SET_CORE_OPTIONS_V2_INTL"), Nothing, [])
      else Reply(Ok(true), Nothing, [ConvertOptionV2Intl, TryReloadPrefOption])
    else if cmd == SET_CORE_OPTIONS_DISPLAY then
      if data.Null? then Reply(Err("ptr data in RETRO_ENVIRONMENT_SET_CORE_OPTIONS_DISPLAY"), Nothing, [])
      else match Validation.ReadSafeCString(data.displayKey, MAX_DISPLAY_KEY_BYTES)
        case Err(e) => Reply(Err(e), Nothing, [])
        case Ok(key) => Reply(Ok(true), Nothing, [ChangeVisibility(key, data.visible)])
    else if cmd == SET_CORE_OPTIONS_UPDATE_DISPLAY_CALLBACK then
      NOT_HANDLED
    else if cmd == GET_VARIABLE_UPDATE then
      Reply(Ok(true), BoolWritten(opts.updatedCount > 0), [])
    else if cmd == SET_VARIABLES || cmd == SET_VARIABLE then
      NOT_HANDLED
    else if cmd == GET_VARIABLE then
      if data.Null? then NOT_HANDLED
      else if data.variableKey !in opts.values then NOT_HANDLED
      else match Validation.CreateSafeCString(opts.values[data.variableKey])
        case Err(e) => Reply(Err(e), Nothing, [])
        case Ok(c) => Reply(Ok(true), StringWritten(c.bytes), [])
    else
      NOT_HANDLED
  }

  /** The fixed answers: the options version and the update flag. */
  lemma FixedAnswers(opts: OptionsView)
    ensures EnvCbOption(opts, GET_CORE_OPTIONS_VERSION, Cell) == Reply(Ok(true), U32Written(2), [])
    ensures EnvCbOption(opts, GET_VARIABLE_UPDATE, Cell).written == BoolWritten(opts.updatedCount != 0)
    ensures EnvCbOption(opts, SET_CORE_OPTIONS_V2_INTL, OptionsV2Data).optionCalls
         == [ConvertOptionV2Intl, TryReloadPrefOption]
  {
  }

  /** Commands the router declines, whatever the payload. */
  lemma Declined(opts: OptionsView, data: Payload)
    ensures EnvCbOption(opts, SET_CORE_OPTIONS_INTL, data) == NOT_HANDLED
    ensures EnvCbOption(opts, SET_CORE_OPTIONS_UPDATE_DISPLAY_CALLBACK, data) == NOT_HANDLED
    ensures EnvCbOption(opts, SET_VARIABLES, data) == NOT_HANDLED
    ensures EnvCbOption(opts, SET_VARIABLE, data) == NOT_HANDLED
    ensures EnvCbOption(opts, GET_VARIABLE, Null) == NOT_HANDLED
  {
  }

  /**
   * GET_VARIABLE for a known key with a value a C string can carry hands the
   * core bytes that read back as exactly that value; an unknown key is
   * declined, and an empty value is an error.
   */
  lemma GetVariableAnswers(opts: OptionsView, key: string)
    ensures key !in opts.values ==> EnvCbOption(opts, GET_VARIABLE, VariableData(key)) == NOT_HANDLED
    ensures key in opts.values && opts.values[key] == "" ==>
      EnvCbOption(opts, GET_VARIABLE, VariableData(key)).result.Err?
    ensures key in opts.values && Validation.CreateSafeCString(opts.values[key]).Ok? ==>
      var reply := EnvCbOption(opts, GET_VARIABLE, VariableData(key));
      reply.result == Ok(true) && reply.written.StringWritten?
      && Validation.ReadSafeCString(Validation.At(reply.written.bytes), Validation.MAX_C_STRING_BYTES)
         == Ok(opts.values[key])
  {
    if key in opts.values && Validation.CreateSafeCString(opts.values[key]).Ok? {
      Validation.CStringRoundTrip(opts.values[key], Validation.MAX_C_STRING_BYTES);
    }
  }

  /** SET_CORE_OPTIONS_DISPLAY refuses a key longer than 255 bytes, and forwards a well-formed shorter one. */
  lemma DisplayKeyLimit(opts: OptionsView, key: string, visible: bool)
    ensures Text.Utf8Len(key) > MAX_DISPLAY_KEY_BYTES ==>
      EnvCbOption(opts, SET_CORE_OPTIONS_DISPLAY, DisplayData(Validation.At(Utf8.Encode(key)), visible)).result.Err?
    ensures Text.Utf8Len(key) <= MAX_DISPLAY_KEY_BYTES ==>
      EnvCbOption(opts, SET_CORE_OPTIONS_DISPLAY, DisplayData(Validation.At(Utf8.Encode(key)), visible))
      == Reply(Ok(true), Nothing, [ChangeVisibility(key, visible)])
  {
    Utf8.EncodeLength(key);
    Utf8.DecodeEncode(key);
  }
}
