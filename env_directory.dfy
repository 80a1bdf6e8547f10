/** `env_cb_directory`: the environment commands that hand the core its directories. */
module EnvDirectory {
  import opened Wrappers
  import opened Ints
  import opened Environment
  import Validation
  import RetroPaths
  import Utf8

  /**
   * `make_c_string`, taken to behave like `CString::new`: the string's bytes,
   * or an error when it holds a NUL (the helper itself is not part of this model).
   */
  function MakeCString(s: string): (r: Result<seq<byte>>)
    ensures r.Ok? <==> '\0' !in s
    ensures r.Ok? ==> Validation.ReadSafeCString(Validation.At(r.value), |r.value|) == Ok(s)
  {
    if '\0' in s then Err("interior NUL") else
      Utf8.DecodeEncode(s);
      Ok(Utf8.Encode(s))
  }

  /** The commands this router answers. */
  const DIRECTORY_COMMANDS: set<u32> := {GET_SYSTEM_DIRECTORY, GET_SAVE_DIRECTORY, GET_CORE_ASSETS_DIRECTORY,
    SET_SUBSYSTEM_INFO, GET_VFS_INTERFACE}

  /** Answers a directory request with the given path. */
  function ShareDirectory(dir: string): (reply: Reply)
  {
    match MakeCString(dir)
    case Err(e) => Reply(Err(e), Nothing, [])
    case Ok(bytes) => Reply(Ok(true), StringWritten(bytes), [])
  }

  /**
   * `env_cb_directory`. `subsystemAccepted` is what the system's subsystem
   * table reports for the core's `retro_subsystem_info` array.
   */
  function EnvCbDirectory(paths: RetroPaths.RetroPaths, cmd: u32, data: Payload, subsystemAccepted: bool): (reply: Reply)
    requires Fits(cmd, data)
    ensures reply.optionCalls == []
    ensures reply.written != Nothing ==> reply.result == Ok(true)
    ensures cmd == GET_SYSTEM_DIRECTORY || cmd == GET_SAVE_DIRECTORY || cmd == GET_CORE_ASSETS_DIRECTORY ==>
      var dir := if cmd == GET_SYSTEM_DIRECTORY then paths.system
                 else if cmd == GET_SAVE_DIRECTORY then paths.save else paths.assets;
      (reply.result.Err? <==> '\0' in dir)
      && (reply.result.Ok? ==>
            (reply.written.StringWritten?
             && Validation.ReadSafeCString(Validation.At(reply.written.bytes), |reply.written.bytes|) == Ok(dir)))
    ensures cmd == SET_SUBSYSTEM_INFO ==>
      reply.written == Nothing && (reply.result.Ok? <==> subsystemAccepted) && (reply.result.Ok? ==> reply.result.value)
    ensures cmd == GET_VFS_INTERFACE ==> reply == Reply(Ok(true), Nothing, [])
    ensures cmd !in DIRECTORY_COMMANDS ==> reply == NOT_HANDLED
  {
    if cmd == GET_SYSTEM_DIRECTORY then ShareDirectory(paths.system)
    else if cmd == GET_SAVE_DIRECTORY then ShareDirectory(paths.save)
    else if cmd == GET_CORE_ASSETS_DIRECTORY then ShareDirectory(paths.assets)
    else if cmd == SET_SUBSYSTEM_INFO then
      if subsystemAccepted then Reply(Ok(true), Nothing, []) else Reply(Err("subsystem info"), Nothing, [])
    else if cmd == GET_VFS_INTERFACE then Reply(Ok(true), Nothing, [])
    else NOT_HANDLED
  }

  /** With the standard layout, the system directory handed to the core is the base plus "/system". */
  lemma SystemDirectoryOfLayout(base: string)
    requires '\0' !in base
    ensures var reply := EnvCbDirectory(RetroPaths.Layout(base), GET_SYSTEM_DIRECTORY, Cell, true);
      reply.result == Ok(true) && reply.written == StringWritten(Utf8.Encode(base + "/system"))
  {
    assert '\0' !in base + "/system" by {
      assert base + "/system" == base + ['/', 's', 'y', 's', 't', 'e', 'm'];
    }
  }
}
