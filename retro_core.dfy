/**
 * The host side of a loaded libretro core (`RetroCore`): two flags guard
 * every call into the plugin. The plugin itself is an oracle: its answers
 * are parameters, and the calls made into it are recorded in `calls`.
 */
module RetroCore {
  import opened Wrappers
  import opened Ints
  import Fs
  import Validation
  import GameTools
  import AvInfo
  import GraphicApi
  import RetroPaths

  /** The entry points of the plugin the host calls. */
  datatype PluginCall =
    | RetroSetEnvironment
    | RetroInit
    | RetroSetAudioSample
    | RetroSetAudioSampleBatch
    | RetroSetVideoRefresh
    | RetroSetInputPoll
    | RetroSetInputState
    | RetroLoadGame
    | RetroGetSystemAvInfo
    | RetroReset
    | RetroRun
    | RetroDeinit
    | RetroSetControllerPortDevice(port: u32, device: u32)
    | RetroUnloadGame
    | RetroSerializeSize
    | RetroSerialize(size: nat)
    | RetroUnserialize(data: seq<byte>, size: nat)

  /** The calls `RetroCore::new` makes: the environment first, then `retro_init`, then the five callbacks. */
  const STARTUP_CALLS: seq<PluginCall> :=
    [RetroSetEnvironment, RetroInit, RetroSetAudioSample, RetroSetAudioSampleBatch, RetroSetVideoRefresh, RetroSetInputPoll, RetroSetInputState]

  class RetroCore {
    var initialized: bool
    var gameLoaded: bool
    var romName: string
    var calls: seq<PluginCall>
    const av: AvInfo.AvInfo
    const paths: RetroPaths.RetroPaths
    const sys: GameTools.SysInfo
    const store: Fs.FileStore

    /** A game is only ever loaded into an initialized core. */
    predicate Valid()
      reads this
    {
      gameLoaded ==> initialized
    }

    /**
     * `RetroCore::new`, once the library has been opened: the core is
     * initialized, no game is loaded and the ROM name is empty.
     */
    constructor (paths: RetroPaths.RetroPaths, sys: GameTools.SysInfo, api: GraphicApi.GraphicApi, store: Fs.FileStore)
      ensures Valid() && initialized && !gameLoaded && romName == ""
      ensures calls == STARTUP_CALLS
      ensures this.paths == paths && this.sys == sys && this.store == store
      ensures fresh(av) && av.graphicApi == api && av.pixelFormat == AvInfo.PIXEL_FORMAT_UNKNOWN
      ensures av.geometry == AvInfo.ZERO_GEOMETRY && av.fps == 0.0 && av.sampleRate == 0
    {
      this.paths := paths;
      this.sys := sys;
      this.store := store;
      av := new AvInfo.AvInfo(api);
      initialized := false;
      gameLoaded := false;
      romName := "";
      calls := [RetroSetEnvironment];
      new;
      var r := Init();
      assert r.Ok?;
      calls := calls + [RetroSetAudioSample, RetroSetAudioSampleBatch, RetroSetVideoRefresh, RetroSetInputPoll, RetroSetInputState];
    }

    /** `init`: refused while a game is loaded or the core is already initialized. */
    method Init() returns (r: Result<Unit>)
      modifies this
      ensures r.Ok? <==> !old(gameLoaded) && !old(initialized)
      ensures r.Ok? ==> initialized && calls == old(calls) + [RetroInit]
      ensures r.Err? ==> initialized == old(initialized) && calls == old(calls)
      ensures gameLoaded == old(gameLoaded) && romName == old(romName)
    {
      if gameLoaded || initialized {
        return Err("a core must be unloaded before a new one is initialized");
      }
      initialized := true;
      calls := calls + [RetroInit];
      r := Ok(Unit);
    }

    /**
     * `load_game`. `coreAccepts` is the plugin's answer to `retro_load_game`
     * and `reported` what its `retro_get_system_av_info` fills in. The game
     * counts as loaded as soon as the plugin accepts it, so a failure in the
     * ROM name or the AV info afterwards leaves it loaded.
     */
    method LoadGame(path: string, coreAccepts: bool, reported: AvInfo.RawAvInfo) returns (r: Result<AvInfo.AvInfo>)
      modifies this, av
      ensures initialized == old(initialized)
      ensures old(gameLoaded) || !old(initialized) ==>
        r.Err? && gameLoaded == old(gameLoaded) && calls == old(calls) && romName == old(romName)
        && av.Current() == old(av.Current())
      ensures !old(gameLoaded) && old(initialized) ==>
        var prepared := GameTools.PrepareGame(path, sys, store.View());
        var romNameResult := GameTools.GetRomName(path);
        (gameLoaded <==> prepared.Ok? && coreAccepts)
        && (!gameLoaded ==> r.Err? && calls == old(calls) + (if prepared.Ok? then [RetroLoadGame] else [])
                            && romName == old(romName) && av.Current() == old(av.Current()))
        && (gameLoaded && romNameResult.Err? ==>
              r.Err? && calls == old(calls) + [RetroLoadGame] && romName == old(romName)
              && av.Current() == old(av.Current()))
        && (gameLoaded && romNameResult.Ok? ==>
              romName == romNameResult.value && calls == old(calls) + [RetroLoadGame, RetroGetSystemAvInfo]
              && av.geometry == reported.geometry && av.fps == reported.timing.fps
              && (r.Ok? <==> 8000.0 <= reported.timing.sampleRate < 192001.0))
      ensures r.Ok? ==> r.value == av && gameLoaded
      ensures old(Valid()) ==> Valid()
    {
      if gameLoaded {
        return Err("a ROM is already loaded");
      }
      if !initialized {
        return Err("the core must be initialized to load a ROM");
      }
      var tried := OfferRom(path, coreAccepts);
      if tried.Err? {
        return Err(tried.msg);
      }
      var loaded := tried.value;
      gameLoaded := loaded;
      if loaded {
        r := LoadedRom(path, reported);
      } else {
        r := Err("could not load the ROM");
      }
    }

    /** `try_load_game` against the plugin: `retro_load_game` is called once the ROM has been validated and read. */
    method OfferRom(path: string, coreAccepts: bool) returns (r: Result<bool>)
      modifies this
      ensures r == GameTools.TryLoadGame(path, sys, store.View(), coreAccepts)
      ensures calls == old(calls) + (if GameTools.PrepareGame(path, sys, store.View()).Ok? then [RetroLoadGame] else [])
      ensures initialized == old(initialized) && gameLoaded == old(gameLoaded) && romName == old(romName)
    {
      if GameTools.PrepareGame(path, sys, store.View()).Ok? {
        calls := calls + [RetroLoadGame];
      }
      r := GameTools.TryLoadGame(path, sys, store.View(), coreAccepts);
    }

    /** The rest of `load_game` once the plugin took the ROM: the ROM name is kept, then the AV info is read. */
    method LoadedRom(path: string, reported: AvInfo.RawAvInfo) returns (r: Result<AvInfo.AvInfo>)
      modifies this, av
      ensures initialized == old(initialized) && gameLoaded == old(gameLoaded)
      ensures GameTools.GetRomName(path).Err? ==>
        r.Err? && calls == old(calls) && romName == old(romName) && av.Current() == old(av.Current())
      ensures GameTools.GetRomName(path).Ok? ==>
        romName == GameTools.GetRomName(path).value && calls == old(calls) + [RetroGetSystemAvInfo]
        && av.geometry == reported.geometry && av.fps == reported.timing.fps
        && (r.Ok? <==> 8000.0 <= reported.timing.sampleRate < 192001.0)
      ensures r.Ok? ==> r.value == av
    {
      var name := GameTools.GetRomName(path);
      if name.Err? {
        return Err(name.msg);
      }
      romName := name.value;
      calls := calls + [RetroGetSystemAvInfo];
      var updated := av.UpdateAvInfo(reported);
      if updated.Err? {
        return Err(updated.msg);
      }
      r := Ok(av);
    }

    /** `reset`: the plugin is reset only when the core is initialized and a game is loaded. */
    method Reset() returns (r: Result<Unit>)
      modifies this
      ensures r.Ok? <==> initialized && gameLoaded
      ensures calls == old(calls) + (if r.Ok? then [RetroReset] else [])
      ensures initialized == old(initialized) && gameLoaded == old(gameLoaded) && romName == old(romName)
    {
      if !initialized {
        return Err("the core was not initialized");
      }
      if !gameLoaded {
        return Err("no ROM is loaded");
      }
      calls := calls + [RetroReset];
      r := Ok(Unit);
    }

    /** `run`: one frame of the plugin, only when the core is initialized and a game is loaded. */
    method Run() returns (r: Result<Unit>)
      modifies this
      ensures r.Ok? <==> initialized && gameLoaded
      ensures calls == old(calls) + (if r.Ok? then [RetroRun] else [])
      ensures initialized == old(initialized) && gameLoaded == old(gameLoaded) && romName == old(romName)
    {
      if !initialized {
        return Err("the core was not initialized");
      }
      if !gameLoaded {
        return Err("no ROM is loaded");
      }
      calls := calls + [RetroRun];
      r := Ok(Unit);
    }

    /**
     * `unload_game`: nothing to do without a game; refused on a core that is
     * not initialized; otherwise the plugin unloads and the flag drops.
     */
    method UnloadGame() returns (r: Result<Unit>)
      modifies this
      ensures !old(gameLoaded) ==> r.Ok? && calls == old(calls) && gameLoaded == old(gameLoaded)
      ensures old(gameLoaded) && !old(initialized) ==> r.Err? && calls == old(calls) && gameLoaded
      ensures old(gameLoaded) && old(initialized) ==> r.Ok? && calls == old(calls) + [RetroUnloadGame] && !gameLoaded
      ensures r.Ok? ==> !gameLoaded
      ensures initialized == old(initialized) && romName == old(romName)
    {
      if !gameLoaded {
        return Ok(Unit);
      }
      if !initialized {
        return Err("the core must be initialized to unload a ROM");
      }
      calls := calls + [RetroUnloadGame];
      gameLoaded := false;
      r := Ok(Unit);
    }

    /**
     * `de_init`: unloads any game, then deinitializes the plugin. Whatever
     * happens the core ends up uninitialized; the unload can only fail from
     * a state that breaks `Valid`.
     */
    method DeInit() returns (r: Result<Unit>)
      modifies this
      ensures !initialized
      ensures r.Err? <==> old(gameLoaded) && !old(initialized)
      ensures r.Ok? ==>
        (!gameLoaded
         && calls == old(calls) + (if old(gameLoaded) then [RetroUnloadGame, RetroDeinit] else [RetroDeinit]))
      ensures r.Err? ==> calls == old(calls) && gameLoaded
      ensures old(Valid()) ==> r.Ok? && Valid()
      ensures romName == old(romName)
    {
      var unloaded := UnloadGame();
      if unloaded.Err? {
        initialized := false;
        return Err(unloaded.msg);
      }
      calls := calls + [RetroDeinit];
      initialized := false;
      r := Ok(Unit);
    }

    /** `connect_controller`: needs an initialized core and a port from 0 to 7. */
    method ConnectController(port: i16, controller: u32) returns (r: Result<Unit>)
      modifies this
      ensures r.Ok? <==> initialized && 0 <= port <= 7
      ensures calls == old(calls) + (if r.Ok? then [RetroSetControllerPortDevice(port as u32, controller)] else [])
      ensures initialized == old(initialized) && gameLoaded == old(gameLoaded) && romName == old(romName)
    {
      if !initialized {
        return Err("no core was initialized to connect a controller to");
      }
      var checked := Validation.ValidateControllerPort(port);
      if checked.Err? {
        return Err(checked.msg);
      }
      calls := calls + [RetroSetControllerPortDevice(checked.value as u32, controller)];
      r := Ok(Unit);
    }

    /** The save request `save_state` and `load_state` build for a slot and the plugin's state size. */
    function Request(slot: nat, stateSize: nat): Result<GameTools.SaveInfo>
      reads this, store
    {
      GameTools.NewSaveInfo(paths.save, sys.libraryName, romName, slot, stateSize, store.View())
    }

    /**
     * `save_state`. `stateSize` is the plugin's `retro_serialize_size`,
     * `serializeOk` its answer to `retro_serialize`, `serialized` the bytes
     * it leaves in the buffer, and `refused` the directories the system
     * declines to create.
     */
    method SaveState(slot: nat, stateSize: nat, serializeOk: bool, serialized: seq<byte>, refused: set<string>)
      returns (r: Result<string>)
      requires |serialized| == stateSize
      modifies this, store
      ensures initialized == old(initialized) && gameLoaded == old(gameLoaded) && romName == old(romName)
      ensures !(gameLoaded && initialized) ==>
        r.Err? && calls == old(calls) && store.View() == old(store.View())
      ensures gameLoaded && initialized && old(Request(slot, stateSize)).Err? ==>
        r.Err? && calls == old(calls) + [RetroSerializeSize] && store.View() == old(store.View())
      ensures gameLoaded && initialized && old(Request(slot, stateSize)).Ok? ==>
        calls == old(calls) + [RetroSerializeSize, RetroSerialize(stateSize)]
      ensures !serializeOk ==> r.Err? && store.View() == old(store.View())
      ensures r.Ok? ==>
        (gameLoaded && initialized && old(Request(slot, stateSize)).Ok?
         && GameTools.GetValidatedSavePath(old(Request(slot, stateSize)).value, old(store.View())) == Ok(r.value)
         && r.value in store.files && store.files[r.value] == serialized)
    {
      if !gameLoaded {
        return Err("a ROM must be loaded first");
      }
      if !initialized {
        return Err("the core must be initialized to save a state");
      }
      calls := calls + [RetroSerializeSize];
      var info := GameTools.NewSaveInfo(paths.save, sys.libraryName, romName, slot, stateSize, store.View());
      if info.Err? {
        return Err(info.msg);
      }
      var called, offered;
      r, called, offered := GameTools.CreateSaveState(info.value, store, serializeOk, serialized, refused);
      if called {
        calls := calls + [RetroSerialize(stateSize)];
      }
    }

    /**
     * `load_state`. `stateSize` is the plugin's `retro_serialize_size` and
     * `deserializeOk` its answer to `retro_unserialize`.
     */
    method LoadState(slot: nat, stateSize: nat, deserializeOk: bool) returns (r: Result<Unit>)
      modifies this
      ensures initialized == old(initialized) && gameLoaded == old(gameLoaded) && romName == old(romName)
      ensures !(gameLoaded && initialized) ==> r.Err? && calls == old(calls)
      ensures gameLoaded && initialized ==>
        var request := Request(slot, stateSize);
        if request.Err? || !GameTools.ReadableState(request.value, store.View()) then
          r.Err? && calls == old(calls) + [RetroSerializeSize]
        else
          var content := store.files[GameTools.GetValidatedSavePath(request.value, store.View()).value];
          calls == old(calls) + [RetroSerializeSize,
                                 RetroUnserialize(content + GameTools.Zeros(stateSize - |content|), |content|)]
          && (r.Ok? <==> deserializeOk)
    {
      if !gameLoaded {
        return Err("a ROM must be loaded first");
      }
      if !initialized {
        return Err("the core must be initialized to load a state");
      }
      calls := calls + [RetroSerializeSize];
      var info := GameTools.NewSaveInfo(paths.save, sys.libraryName, romName, slot, stateSize, store.View());
      if info.Err? {
        return Err(info.msg);
      }
      var sent;
      r, sent := GameTools.LoadSaveState(info.value, store, deserializeOk);
      if sent.Some? {
        calls := calls + [RetroUnserialize(sent.value.0, sent.value.1)];
      }
    }
  }
}
