# Tinic core, modelled in Dafny

Tinic is a libretro frontend written in Rust. It loads an emulator core (a
libretro plugin), answers the core's environment requests, paces frames,
buffers audio, captures screenshots and maps keyboard and gamepad input. It
also manages its support data: core `.info` files, the `cores.7z` archive,
RetroArch RDB game databases, thumbnails and a SQLite game table. This
project models the logic of that core and proves what the code promises
about it.

The model has one module per source file:

- `RetroCore`, `GameTools`, `Validation`, `AvInfo`, `GraphicApi` cover the core's lifecycle and ROM and save-state handling. They also cover the guard checks, the AV info and the graphics API record.
- `EnvVideo`, `EnvOption`, `EnvDirectory` and `Environment` cover the three `env_cb_*` dispatchers, the libretro command codes they answer, and the payload a core passes.
- `Sync`, `Audios` and `AudioDriver` cover frame pacing and the audio FIFO with its device-side drain. `PrintScreen` converts frames to RGB.
- `Keyboard`, `DevicesManager`, `GamepadKeyMap` and `Joypad` cover input state, the button tables and the libretro joypad ids.
- `RetroPaths` covers the directory layout and its creation.
- `MsgPack`, `GameModel`, `RdbParser`, `Rdb` and `DbHelper` cover RDB decoding, batching, searching by name or CRC, and the list of databases to download.
- `InfoModel`, `InfoReader`, `Art`, `GameIdentifier`, `ExtractFiles` and `CoreInstall` cover `.info` parsing, thumbnail URLs, ROM detection, 7z extraction and core installation.
- `DbModel` and `DbQuery` cover the SQLite row codec and the queries over the game table.
- `Wrappers`, `Ints`, `Text`, `Utf8`, `PathRules` and `Fs` are shared helpers. They hold `Result`/`Option`, Rust's integer widths and `as` casts, `str` operations, strict UTF-8, Unix `std::path` rules, and a file store.

Everything outside the process is a parameter of the operation that uses it:

- the plugin's answers to each call;
- the outcome of opening or reading a file;
- the directories that cannot be created;
- the MessagePack decoder's outcomes;
- the CRC-32 of a file;
- each download's result;
- the ordered rows the SQLite engine yields.

Methods that change state are proved against specification functions of
the old state. Lemmas then state what the source promises about those
functions: round trips, invariants, first-match rules and ordering.

## Model

| member | source | states |
|---|---|---|
| RetroCore.RetroCore.constructor | crates/retro_core/src/retro_core.rs:32-92 | a new core has called `retro_set_environment`, `retro_init` and then the five callback setters in that order; it is initialized, holds no game, has an empty ROM name and a fresh AV info on the given graphic API |
| RetroCore.RetroCore.Init | crates/retro_core/src/retro_core.rs:94-107 | succeeds exactly when no game is loaded and the core is not initialized; on success it sets `initialized` and calls `retro_init`, and on failure it changes nothing |
| RetroCore.RetroCore.LoadGame | crates/retro_core/src/retro_core.rs:109-132 | fails with nothing changed when a game is loaded or the core is uninitialized; otherwise `game_loaded` becomes true exactly when validation passes and the plugin accepts, and a later ROM-name or AV-info failure returns Err with the game still loaded; keeps `game_loaded ⇒ initialized` |
| RetroCore.RetroCore.OfferRom | crates/retro_core/src/retro_core.rs:120 | `retro_load_game` is called only once the ROM has been validated and read, and the result is `try_load_game`'s |
| RetroCore.RetroCore.LoadedRom | crates/retro_core/src/retro_core.rs:123-128 | after a load the ROM name is stored before the AV info is read; a ROM-name failure leaves the AV info and the call log alone, and otherwise the geometry and fps are the plugin's whatever the sample rate |
| RetroCore.RetroCore.Reset | crates/retro_core/src/retro_core.rs:134-148 | succeeds exactly when initialized and a game is loaded; only then is `retro_reset` called; the flags never change |
| RetroCore.RetroCore.Run | crates/retro_core/src/retro_core.rs:150-162 | succeeds exactly when initialized and a game is loaded; only then is `retro_run` called; the flags never change |
| RetroCore.RetroCore.UnloadGame | crates/retro_core/src/retro_core.rs:199-216 | with no game loaded it returns Ok and changes nothing; it fails only when a game is loaded into an uninitialized core; on success no game is loaded and `retro_unload_game` was called once |
| RetroCore.RetroCore.DeInit | crates/retro_core/src/retro_core.rs:164-180 | always leaves the core uninitialized; it fails only when the unload fails, which needs a state breaking `game_loaded ⇒ initialized`; from a valid state it succeeds after unloading and calling `retro_deinit` |
| RetroCore.RetroCore.ConnectController | crates/retro_core/src/retro_core.rs:182-197 | succeeds exactly when initialized and the port is in 0..=7, and only then calls `retro_set_controller_port_device` with that port as unsigned |
| RetroCore.RetroCore.SaveState | crates/retro_core/src/retro_core.rs:218-243 | fails without calling the plugin unless a game is loaded and the core initialized; a refused serializer writes nothing; on success the returned path is the validated slot path and holds exactly the serialized bytes |
| RetroCore.RetroCore.LoadState | crates/retro_core/src/retro_core.rs:245-272 | fails without calling the plugin unless a game is loaded and the core initialized; when the slot file is readable the plugin receives its bytes zero-padded to the state size with the file's own length, and the result is the plugin's answer |
| GameTools.NewSaveInfo | crates/retro_core/src/tools/game_tools.rs:60-110 | a save request is accepted exactly when the slot is at most 99, the save directory validates, the buffer holds between 1 byte and 100 MiB, and both names are non-empty and free of reserved characters; the accepted request keeps its arguments unchanged |
| GameTools.Sanitize | crates/retro_core/src/tools/game_tools.rs:242-255 | the name keeps its length, and each character is replaced by '_' exactly when it is reserved or a control character |
| GameTools.SanitizeIsClean | crates/retro_core/src/tools/game_tools.rs:242-255 | a sanitized name has no reserved or control characters, so it cannot contain '/' or escape its directory |
| GameTools.SanitizeKeepsClean | crates/retro_core/src/tools/game_tools.rs:242-255 | a name that is already clean is left unchanged |
| GameTools.SanitizeIdempotent | crates/retro_core/src/tools/game_tools.rs:242-255 | sanitizing twice gives the same name as sanitizing once |
| GameTools.SanitizeExamples | crates/retro_core/src/tools/game_tools.rs:469-472 | "test<>file" becomes "test__file", and "normal_name" is kept |
| GameTools.GetRomNameOfPlainFile | crates/retro_core/src/tools/game_tools.rs:206-239 | in any directory, a file `stem.ext` gets the sanitized stem as its ROM name when the stem is non-empty, has no '/', does not contain ".ext" and fits in 255 bytes |
| GameTools.GetRomNameOfBareFile | crates/retro_core/src/tools/game_tools.rs:475-480 | a bare file name such as "test_game.sfc" gets its sanitized stem as the ROM name |
| GameTools.PlainFileName | crates/retro_core/src/tools/game_tools.rs:208-211 | `stem.ext` is a single proper path component, so its file name can be taken |
| GameTools.RomNameFromFileName | crates/retro_core/src/tools/game_tools.rs:213-222 | the extension of `stem.ext` is ext, and removing every ".ext" from the file name leaves the stem |
| GameTools.GetRomNameNeedsExtension | crates/retro_core/src/tools/game_tools.rs:481-484 | a name without any '.', such as "no_extension", is refused |
| GameTools.SavePathLayout | crates/retro_core/src/tools/game_tools.rs:383-405 | for an accepted request, the save file is `<dir>/<library>/<rom>/<NN>.save` with both names sanitized, unless that directory is longer than 1024 bytes |
| GameTools.SlotFilesDistinct | crates/retro_core/src/tools/game_tools.rs:401 | two different slots of at most 99 never get the same file name |
| GameTools.TempPathOfSlot | crates/retro_core/src/tools/game_tools.rs:296 | the temporary file of a slot is `<dir>/<NN>.tmp`, which is never the slot file itself |
| GameTools.ValidateRomIntegrity | crates/retro_core/src/tools/game_tools.rs:408-444 | a ROM passes exactly when it is a regular file of between 1 byte and 500 MiB |
| GameTools.TryLoadGame | crates/retro_core/src/tools/game_tools.rs:118-144 | loading succeeds exactly when path validation, the extension check and reading the game info all succeed and the core accepts, and a success is always `true` |
| GameTools.PrepareGameInMemory | crates/retro_core/src/tools/game_tools.rs:118-203 | when the core reads from memory, a game reaches it exactly when its path passes the checks, it is a regular file with an accepted extension and its size is between 1 byte and 500 MiB; the core then gets exactly the file's bytes, its size and the path as a C string |
| GameTools.CreateGameInfoInMemory | crates/retro_core/src/tools/game_tools.rs:147-203 | for a path that forms a C string, the in-memory game info is made exactly when the file is regular with a size between 1 byte and 500 MiB, and it carries exactly the file's bytes |
| GameTools.CreateSaveState | crates/retro_core/src/tools/game_tools.rs:258-326 | the serializer is called exactly when the buffer holds between 1 byte and 100 MiB, and it is then handed a zero-filled buffer of exactly that many bytes; when it is not called, or it fails, nothing on disk changes; a success returns the validated save path, with the slot file holding the serialized bytes, the temporary file gone, and, on a well-formed filesystem, exactly the missing directories above the slot created |
| GameTools.StoreSaveState | crates/retro_core/src/tools/game_tools.rs:288-325 | the directories end as `create_dir_all` of the slot's directory leaves them, and its failure is "Failed to create save directory" with no file written; on a well-formed filesystem a success has created the slot's directory and every missing directory above it, and a regular file anywhere on that path makes the call fail; a successful write puts the data into the slot file by way of the temporary file and leaves no temporary file behind |
| GameTools.LoadSaveState | crates/retro_core/src/tools/game_tools.rs:329-380 | the deserializer is called exactly when the slot file exists with between 1 byte and min(100 MiB, buffer size) bytes; it receives those bytes padded with zeros to the buffer size, together with the file's own length; the load succeeds exactly when the deserializer was called and accepted |
| Validation.FirstDangerous | crates/retro_core/src/tools/validation.rs:96-105 | the pattern found is one of the list and occurs in the path; when none is found, no pattern of the list occurs |
| Validation.CheckPathTraversalOk | crates/retro_core/src/tools/validation.rs:92-108 | a path passes the traversal check exactly when it contains none of "..", "//", "\\\\" and "/.", since the other three patterns all contain ".." |
| Validation.TraversalExamples | crates/retro_core/src/tools/validation.rs:309-321 | "../../../etc/passwd", "test/../../../etc/passwd" and "..\\..\\windows\\system32" are refused |
| Validation.ValidateFilePath | crates/retro_core/src/tools/validation.rs:12-48 | a path is accepted exactly when it is non-empty, has no NUL, fits in 4096 bytes, passes the traversal check and names an existing regular file; the accepted path is the input |
| Validation.ValidateDirectoryPath | crates/retro_core/src/tools/validation.rs:51-89 | a directory path is accepted exactly when it passes the same checks and either exists or has no existing parent that is not a directory |
| Validation.ExtensionList | crates/retro_core/src/tools/validation.rs:121-124 | the accepted extensions are the '\|'-separated pieces of the list, each trimmed and lower-cased, one per piece |
| Validation.ValidateRomExtensionOk | crates/retro_core/src/tools/validation.rs:111-134 | a path is accepted exactly when it has an extension whose lower-cased form equals some trimmed, lower-cased entry of the list |
| Validation.ValidateFileSize | crates/retro_core/src/tools/validation.rs:137-158 | the size is returned exactly when the path is a regular file of between 1 byte and `max_size_mb` MiB, and it is the file's length |
| Validation.ValidateBufferSize | crates/retro_core/src/tools/validation.rs:218-231 | a buffer size is accepted exactly when it is between 1 and the maximum |
| Validation.CreateSafeCString | crates/retro_core/src/tools/validation.rs:161-175 | a C string is made exactly when the string is non-empty, at most 65535 UTF-8 bytes long and free of NUL; it holds the string's UTF-8 bytes |
| Validation.ReadSafeCString | crates/retro_core/src/tools/validation.rs:178-202 | a C string is read exactly when the pointer is not null, it holds at most `max_len` bytes and those bytes are valid UTF-8; the result is their decoding |
| Validation.CStringRoundTrip | crates/retro_core/src/tools/validation.rs:161-202 | a C string made from a string reads back as the same string whenever the limit allows its length |
| Validation.ValidateControllerPort | crates/retro_core/src/tools/validation.rs:205-215 | a port is accepted exactly when it is between 0 and 7, and it keeps its value as `u16` |
| Validation.ValidateSampleRate | crates/retro_core/src/tools/validation.rs:257-265 | a sample rate is accepted exactly when it is between 8000 and 192000 Hz |
| Validation.ValidateSaveSlot | crates/retro_core/src/tools/validation.rs:268-273 | a slot is accepted exactly when it is at most 99 |
| Validation.SanitizeForLogging | crates/retro_core/src/tools/validation.rs:250-254 | every character kept is from the input and is not a control character other than newline or tab, and the result is no longer than the input |
| Validation.SanitizeForLoggingKeepsClean | crates/retro_core/src/tools/validation.rs:250-254 | a string without such control characters is kept unchanged |
| Validation.SanitizeForLoggingIdempotent | crates/retro_core/src/tools/validation.rs:250-254 | sanitizing twice gives the same string as sanitizing once |
| Validation.SanitizeForLoggingAppend | crates/retro_core/src/tools/validation.rs:250-254 | sanitizing a concatenation is the same as concatenating the sanitized parts, so the filter works character by character |
| AvInfo.SaturatingU32 | crates/retro_core/src/av_info.rs:121-122 | Rust's `f64 as u32`: a non-positive rate gives 0, a rate in range gives its whole part, and a rate at or above `u32::MAX` gives `u32::MAX` |
| AvInfo.SampleRateGate | crates/retro_core/src/av_info.rs:121 | after the cast, exactly the reported rates in [8000, 192001) pass the sample-rate check |
| AvInfo.AvInfo.constructor | crates/retro_core/src/av_info.rs:51-77 | a new AV info keeps the given graphic API and has zero geometry and timing, an unknown pixel format and no frame duping |
| AvInfo.AvInfo.TrySetNewGeometry | crates/retro_core/src/av_info.rs:79-110 | every geometry field takes the core's value and nothing else changes |
| AvInfo.AvInfo.SetTiming | crates/retro_core/src/av_info.rs:112-125 | a null pointer is an error that changes nothing; otherwise the frame rate is always stored, and the sample rate is stored (and the call succeeds) exactly when the cast rate passes the check |
| AvInfo.AvInfo.UpdateAvInfo | crates/retro_core/src/av_info.rs:127-150 | the geometry and frame rate become what the core reports; the update succeeds exactly when the reported sample rate is in [8000, 192001), and a failure leaves the old sample rate |
| GraphicApi.Initial | crates/retro_core/src/graphic_api.rs:40-62 | a new context has the given context type, every flag off, versions 0 and no framebuffer |
| GraphicApi.Updated | crates/retro_core/src/graphic_api.rs:64-79 | an update takes the request's five flags and its versions truncated to `u8`, and keeps the context type and framebuffer |
| GraphicApi.UpdatedIdempotent | crates/retro_core/src/graphic_api.rs:64-79 | applying the same request twice is the same as applying it once |
| GraphicApi.UpdatedOverwrites | crates/retro_core/src/graphic_api.rs:64-79 | only the last request counts, since each update overwrites every field an earlier one set |
| GraphicApi.UpdatedIgnoresRequestedContext | crates/retro_core/src/graphic_api.rs:64-79 | the context type in a request never changes the stored settings |
| GraphicApi.GraphicApi.Default | crates/retro_core/src/graphic_api.rs:40-54 | the default context is OpenGL with the initial settings |
| GraphicApi.GraphicApi.With | crates/retro_core/src/graphic_api.rs:56-62 | `with(t)` is the default with context type `t` |
| GraphicApi.GraphicApi.TryUpdateFromRaw | crates/retro_core/src/graphic_api.rs:64-79 | the stored settings become `Updated` of the old ones, and the call always reports success |
| EnvDirectory.MakeCString | crates/retro_core/src/core_env/env_directory.rs:24-27 | a directory is turned into a C string exactly when it holds no NUL, and that C string reads back as the directory |
| EnvDirectory.EnvCbDirectory | crates/retro_core/src/core_env/env_directory.rs:14-83 | the system, save and assets requests each fail exactly when their directory holds a NUL, and otherwise hand the core bytes that read back as that directory; a subsystem call succeeds exactly when the system accepts the table; the VFS request is answered `true` with nothing written; every other command is declined |
| EnvDirectory.SystemDirectoryOfLayout | crates/retro_core/src/core_env/env_directory.rs:20-34 | with the standard directory layout, the core is told that its system directory is the base directory plus "/system" |
| EnvOption.EnvCbOption | crates/retro_core/src/core_env/env_option.rs:20-136 | a reply that writes something or calls the option manager is always `Ok(true)`; a command outside the five handled ones is declined; an error comes exactly from a null options or display payload, a display key that cannot be read, or an option value that cannot become a C string |
| EnvOption.FixedAnswers | crates/retro_core/src/core_env/env_option.rs:26-56 | the options version is answered with 2, the variable-update flag says whether the update counter is non-zero, and an options table is converted and then the saved preferences are reloaded |
| EnvOption.Declined | crates/retro_core/src/core_env/env_option.rs:36-40 | the core-options, display-callback, set-variables and set-variable commands are declined whatever the payload, and so is a variable request with a null payload |
| EnvOption.GetVariableAnswers | crates/retro_core/src/core_env/env_option.rs:100-133 | an unknown variable is declined, an empty value is an error, and a value a C string can hold reaches the core as bytes that read back as exactly that value |
| EnvOption.DisplayKeyLimit | crates/retro_core/src/core_env/env_option.rs:57-71 | a display key longer than 255 bytes is refused, and a shorter one is passed to the option manager with its visibility |
| EnvVideo.EnvCbAv | crates/retro_core/src/core_env/env_video.rs:167-262 | a geometry or pixel-format request with a null payload is an error that changes nothing; otherwise it stores exactly that field; the audio/video request answers 3 (video and audio on); with hardware rendering, the preferred-context request answers the context type and a hardware-render request installs the callbacks and updates the graphic settings; nothing else is changed, and any other command is declined |
| Sync.Clamp | crates/retro_av/src/sync.rs:47 | `f64::clamp` stays within the window and keeps a value that is already in it |
| Sync.Since | crates/retro_av/src/sync.rs:43 | `Instant::duration_since` is never negative |
| Sync.Measure | crates/retro_av/src/sync.rs:39-61 | the target is 1/fps and the elapsed time is measured from the last frame; the adjustment always lies in [-d, d], equals elapsed − target whenever that difference lies in the window, and is d or −d when it lies above or below |
| Sync.SleepTimeBounds | crates/retro_av/src/sync.rs:63-70 | a frame that ran short sleeps for exactly the rest of its period, which is positive; any other frame sleeps between the period minus d and the period |
| Sync.OnTimeFrame | crates/retro_av/src/sync.rs:39-70 | a frame that took exactly its period gets no adjustment and sleeps one full period |
| Sync.RetroSync.constructor | crates/retro_av/src/sync.rs:24-37 | a new pacer starts at the given clock time with no frames counted and zero sync data |
| Sync.RetroSync.PrepareSyncData | crates/retro_av/src/sync.rs:39-61 | the stored sync data is `Measure` of the last frame time, the window, the frame rate and the clock, and neither the last frame time nor the frame count changes |
| Sync.RetroSync.SyncNow | crates/retro_av/src/sync.rs:63-81 | the next frame starts at the measured time, the frame count goes up by one (modulo 2^32), the sync data is kept, and the sleep is the computed time when that is positive and nothing otherwise, so it is never negative |
| Sync.PreparedCanSync | crates/retro_av/src/sync.rs:66-70 | after a measurement, the sleep time of either branch is non-negative whenever the frame period is at least the window, so `Duration::from_secs_f64` cannot panic |
| Audios.AudioNewFrame.constructor | crates/retro_av/src/audios.rs:38-42 | the FIFO starts empty with no frames and the device's channel count |
| Audios.AudioNewFrame.AudioSample | crates/retro_av/src/audios.rs:115-120 | exactly [left, right] goes to the back of the FIFO, and `frames` becomes half the samples held |
| Audios.AudioNewFrame.AudioSampleBatch | crates/retro_av/src/audios.rs:122-138 | a null pointer reports 0 frames and changes nothing; otherwise the 2·count samples go to the back in order, `frames` becomes count and count is returned |
| Audios.AudioNewFrame.FillOutput | crates/retro_av/src/audios.rs:50-65 | with an empty FIFO or `frames` at 0 the device gets silence and the FIFO is kept; otherwise the oldest min(n, len) samples fill the front of the device buffer in order and leave the FIFO, the rest of the device buffer is silenced, the samples written followed by the new FIFO are the old FIFO, and `frames` becomes what remains divided by the channel count |
| Audios.DrainInto | crates/retro_av/src/audios.rs:57-64 | min(n, len) samples are written, and the device buffer is those oldest samples followed by silence |
| Audios.CopyInto | crates/retro_av/src/audios.rs:58-60 | the drain loop writes the drained samples, in order, to the front of the buffer and leaves the rest alone |
| Audios.FillZero | crates/retro_av/src/audios.rs:62-64 | the tail from the given index is zeroed and the front is left alone |
| AudioDriver.AddSample | crates/retro_av/src/audio_driver.rs:93-108 | the samples go to the back of the FIFO in order, and `frames` becomes the given count |
| PrintScreen.Expand5Properties | crates/retro_av/src/print_scree.rs:98-101 | widening a 5-bit channel maps 0 to 0 and 31 to 255, keeps the order of values, keeps the value as its top bits and equals 8v + ⌊v/4⌋ |
| PrintScreen.Expand6Properties | crates/retro_av/src/print_scree.rs:143 | widening a 6-bit channel maps 0 to 0 and 63 to 255, keeps the order of values, keeps the value as its top bits and equals 4v + ⌊v/16⌋ |
| PrintScreen.From1555IgnoresTopBit | crates/retro_av/src/print_scree.rs:92-101 | bit 15 of a 0RGB1555 pixel never affects its colour |
| PrintScreen.BlackAndWhite | crates/retro_av/src/print_scree.rs:92-149 | black and white pixels convert to black and white in both 16-bit formats |
| PrintScreen.Rows | crates/retro_av/src/print_scree.rs:39-40 | the first y converted rows hold exactly 3·width·y bytes, the capacity the source reserves for the whole frame |
| PrintScreen.FrameAt | crates/retro_av/src/print_scree.rs:42-58 | pixel (x, y) of the frame is the three bytes at offset 3·(y·width + x) of the converted image, which is the row-major RGB layout `ImageBuffer::from_raw` expects |
| PrintScreen.PaddingIgnored | crates/retro_av/src/print_scree.rs:43-45 | two frames that agree on the bytes of every row (the first width·bpp bytes after each pitch step) convert to the same image, so the padding between rows never shows |
| PrintScreen.Convert | crates/retro_av/src/print_scree.rs:42-59 | the conversion loops build exactly the converted frame, with rows from top to bottom |
| PrintScreen.ConvertRow | crates/retro_av/src/print_scree.rs:49-58 | the inner loop appends the row's pixels, left to right, three bytes each |
| PrintScreen.Take | crates/retro_av/src/print_scree.rs:14-27 | a screenshot succeeds exactly in the three supported pixel formats, and its image is the converted frame of 3·width·height bytes |
| Keyboard.NewKeyMap | crates/retro_controllers/src/keyboard.rs:62-70 | a new table entry keeps its key and id and starts released |
| Keyboard.DefaultKeyMapsWellFormed | crates/retro_controllers/src/keyboard.rs:77-148 | the default table has 16 entries, all released, with joypad ids below 16 and no key and no id repeated |
| Keyboard.DefaultSlots | crates/retro_controllers/src/keyboard.rs:77-148 | each row of the default table is the only row with its key and the only row with its id |
| Keyboard.FirstWithId | crates/retro_controllers/src/keyboard.rs:34-38 | the entry found is the first whose id, cast to `i16`, equals the requested id, and no entry matches when none is found |
| Keyboard.KeyStateOfWellFormed | crates/retro_controllers/src/keyboard.rs:33-41 | on a well-formed table a key reads 1 exactly when the entry with that id is held, and 0 otherwise |
| Keyboard.MaskBits | crates/retro_controllers/src/keyboard.rs:43-52 | bit b of the key mask is set exactly when some entry with id b is held |
| Keyboard.SumIsOr | crates/retro_controllers/src/keyboard.rs:48 | on a well-formed table the running sum `bitmasks += pressed << retro` never carries, so it builds the same value as a bitwise or |
| Keyboard.MaskReleased | crates/retro_controllers/src/keyboard.rs:43-52 | a table with nothing held reads as the empty mask |
| Keyboard.Keyboard.constructor | crates/retro_controllers/src/keyboard.rs:15-21 | a new keyboard is on port 0, has type `RETRO_DEVICE_JOYPAD` and the default table, and is well formed |
| Keyboard.Keyboard.SetKeyPressed | crates/retro_controllers/src/keyboard.rs:23-29 | exactly the entries for the key take the new state; the length, the order, the other entries, the port and the type are unchanged, and a well-formed table stays well formed |
| Keyboard.Keyboard.GetKeyPressed | crates/retro_controllers/src/keyboard.rs:33-41 | the answer is 1 or 0 from the first entry with the id, and 0 when no entry has it |
| Keyboard.Keyboard.GetKeyBitmasks | crates/retro_controllers/src/keyboard.rs:43-52 | the answer is the mask of the held entries' bits, read as `i16` |
| Keyboard.FreshKeyboardIdle | crates/retro_controllers/src/keyboard.rs:15-21 | a new keyboard reads as the empty mask, and every key reads as released |
| Keyboard.PressThenRead | crates/retro_controllers/src/keyboard.rs:23-41 | after a key of a well-formed table is set, the table stays well formed and reading that key's id gives back the state just set |
| Joypad.BitOfIsShift | crates/retro_controllers/src/keyboard.rs:48 | the bit of each joypad id is `1 << id` |
| DevicesManager.RetroButtonNames | crates/retro_controllers/src/devices_manager.rs:45-74 | an id has a name other than "Chave desconhecida" exactly when it is one of the 16 joypad ids, and those 16 names are pairwise distinct |
| DevicesManager.FirstOnPort | crates/retro_controllers/src/devices_manager.rs:149-157 | the gamepad found is the first on the port, and no gamepad is on the port when none is found |
| DevicesManager.DevicesManager.constructor | crates/retro_controllers/src/devices_manager.rs:82-98 | a new manager has no keyboard, no gamepads and the default limit of 2 ports |
| DevicesManager.DevicesManager.ActiveKeyboard | crates/retro_controllers/src/devices_manager.rs:115-119 | a fresh keyboard on port 0 with every key released replaces any previous one, the caller gets a separate copy of it, and the gamepads and port limit are kept |
| DevicesManager.DevicesManager.DisableKeyboard | crates/retro_controllers/src/devices_manager.rs:121-127 | afterwards no keyboard is in use, and nothing else changes |
| DevicesManager.DevicesManager.UpdateKeyboard | crates/retro_controllers/src/devices_manager.rs:109-113 | a key event reaches the keyboard's table when there is a keyboard, and the keyboard stays on its port |
| DevicesManager.DevicesManager.SetMaxPort | crates/retro_controllers/src/devices_manager.rs:129-131 | the port limit takes the new value, and the devices are kept |
| DevicesManager.DevicesManager.GetInputState | crates/retro_controllers/src/devices_manager.rs:140-160 | the keyboard answers first when it is on the port, with its mask for `RETRO_DEVICE_ID_JOYPAD_MASK` and one key's state otherwise; otherwise the first gamepad on the port answers in the same way; with no device on the port the answer is 0 |
| DevicesManager.DevicesManager.ApplyRumble | crates/retro_controllers/src/devices_manager.rs:162-165 | a rumble request is always reported as applied |
| GamepadKeyMap.NewKeyMap | crates/retro_controllers/src/gamepad/retro_gamepad_key_map.rs:12-20 | a new gamepad entry keeps its button and id and starts out pressed |
| GamepadKeyMap.NativeButtonNames | crates/retro_controllers/src/gamepad/retro_gamepad_key_map.rs:23-53 | Mode is named "mode"; a button gets the fallback name "Chave desconhecida" exactly when the table does not list it; listed buttons have pairwise-distinct names |
| GamepadKeyMap.DefaultKeyMapsIds | crates/retro_controllers/src/gamepad/retro_gamepad_key_map.rs:55-112 | the default table has 16 entries, each with a joypad id below 16 and no id twice |
| GamepadKeyMap.DefaultKeyMapsButtons | crates/retro_controllers/src/gamepad/retro_gamepad_key_map.rs:55-112 | every default entry has a listed button, and no button appears twice |
| GamepadKeyMap.IdOfAt | crates/retro_controllers/src/gamepad/retro_gamepad_key_map.rs:55-112 | in a table, an entry gives the id for its button when no earlier entry has that button |
| GamepadKeyMap.DefaultFaceButtons | crates/retro_controllers/src/gamepad/retro_gamepad_key_map.rs:72-75 | the face buttons follow their positions: South is B, East is A, North is X and West is Y |
| RetroPaths.SameIsEquivalence | crates/generics/src/retro_paths.rs:22-26 | the partial equality is reflexive, symmetric and transitive, as the `Eq` derive requires |
| RetroPaths.SameIgnoresOtherFields | crates/generics/src/retro_paths.rs:22-26 | values that differ only outside the assets and system paths compare equal |
| RetroPaths.Layout | crates/generics/src/retro_paths.rs:109-121 | the base directory is the base, and each of the nine directories is the base, a '/' and its name |
| RetroPaths.LayoutDistinct | crates/generics/src/retro_paths.rs:110-118 | the nine directories under one base are pairwise distinct |
| RetroPaths.CreateInOrder | crates/generics/src/retro_paths.rs:41-93 | a failure, when there is one, names one of the directories; a missing directory is made with `create_dir_all`, an existing one is left alone |
| RetroPaths.CreateInOrderSucceeds | crates/generics/src/retro_paths.rs:41-106 | when no step fails, every (non-empty) directory exists afterwards |
| RetroPaths.CreateInOrderGrows | crates/generics/src/retro_paths.rs:41-93 | files are untouched and directories are only ever added, so an existing directory is never recreated or removed |
| RetroPaths.CreateInOrderStops | crates/generics/src/retro_paths.rs:41-93 | a failure at index k names a directory that was missing and still does not exist, because some path on its way is a regular file or was refused; every directory added lies on the way to one of the first k + 1 directories |
| RetroPaths.StepGrows | crates/generics/src/retro_paths.rs:41 | one step leaves the files alone, adds directories only along the ancestry of its directory, and leaves that directory existing unless it fails |
| RetroPaths.CreateInOrderTree | crates/generics/src/retro_paths.rs:41-93 | creating the directories keeps a well-formed filesystem well formed |
| RetroPaths.ParentOfLayoutDir | crates/generics/src/retro_paths.rs:110-118 | `base/name` sits directly in the base, so `create_dir_all` of it makes the base and the base's own ancestors |
| RetroPaths.LayoutCreatesBase | crates/generics/src/retro_paths.rs:109-132 | when `from_base` succeeds on a well-formed filesystem, the base directory and everything above it exist afterwards |
| Fs.FileStore.CreateDirAll | crates/generics/src/retro_paths.rs:41 | `create_dir_all` as the standard library performs it: the empty path and an existing directory succeed, an existing file fails, otherwise the parent is made first and then the path, unless the system refuses it |
| Fs.CreateAllEffect | crates/retro_core/src/tools/game_tools.rs:289-293 | `create_dir_all` never touches files and adds directories only along the path's ancestry; on success the path is a directory, on failure it is not, and some path on the way is a file or was refused |
| Fs.CreateAllOk | crates/retro_core/src/tools/game_tools.rs:289-293 | on a well-formed filesystem `create_dir_all` succeeds exactly when no path on the way is a file or a missing directory the system refuses; it then creates exactly the missing ancestors, and the filesystem stays well formed |
| Fs.CreateAllTree | crates/retro_core/src/tools/game_tools.rs:289-293 | the files stay; on a well-formed filesystem a success adds exactly the path's ancestors and a file on the way is a failure |
| RetroPaths.EnsureDir | crates/generics/src/retro_paths.rs:41-45 | an existing path is left alone; a missing one is made with `create_dir_all`, and the step fails exactly when that fails; on a well-formed filesystem a success adds exactly the directory and its missing ancestors, such as a missing base directory |
| RetroPaths.New | crates/generics/src/retro_paths.rs:29-107 | the directories are created in the fixed order system…arts; the result is the given paths exactly when no step failed, and otherwise "Não foi possível criar a pasta" followed by the name of the first directory that could not be created; the filesystem ends as `CreateInOrder` says, ancestors included, and stays well formed |
| RetroPaths.FromBase | crates/generics/src/retro_paths.rs:109-132 | `from_base` creates the layout under the base and returns it, or fails at the first directory that could not be created; on a well-formed filesystem a success leaves the base directory, everything above it and the nine directories in place |
| MsgPack.DecodeSpec | crates/tinic_super/src/rdb_manager/rdb_parser.rs:30-51 | the records kept are exactly the deserialised values in front of the first error, and the loop ends on that error, or on a marker read past the end when every record decodes |
| MsgPack.DecodePrefix | crates/tinic_super/src/rdb_manager/rdb_parser.rs:30-51 | when the first i calls succeed and the next fails (or the stream ends), exactly i records are kept |
| MsgPack.DecodeFrom | crates/tinic_super/src/rdb_manager/rdb_parser.rs:31-42 | one call of the loop: an error ends it with nothing more kept; a decoded record is kept in front of whatever the rest decodes |
| GameModel.StringOf | crates/tinic_super/src/rdb_manager/game_model.rs:61-68 | a `String` field takes a MessagePack string as it is, and a binary exactly when it is valid UTF-8; any other value is a type error |
| GameModel.OptString | crates/tinic_super/src/rdb_manager/game_model.rs:61-68 | an `Option<String>` field is `None` for nil and otherwise decodes as a `String`, failing exactly when that fails |
| GameModel.OptU32 | crates/tinic_super/src/rdb_manager/game_model.rs:69-70 | an `Option<u32>` field accepts nil or an integer in 0..2^32 and nothing else, keeping the integer |
| GameModel.OptU64 | crates/tinic_super/src/rdb_manager/game_model.rs:71 | an `Option<u64>` field accepts nil or an integer in 0..2^64 and nothing else, keeping the integer |
| GameModel.BytesOf | crates/tinic_super/src/rdb_manager/game_model.rs:28 | an array of byte-sized integers gives those bytes, one per element, in order |
| GameModel.ByteBufOf | crates/tinic_super/src/rdb_manager/game_model.rs:28 | a `ByteBuf` takes a binary's bytes, a string's UTF-8 bytes, and refuses nil, integers, maps, booleans and floats |
| GameModel.CrcReprOf | crates/tinic_super/src/rdb_manager/game_model.rs:24-29 | the untagged `Crc32Repr` is `Int` for an integer in u32 range, and otherwise `Bin` exactly when the value reads as a `ByteBuf` |
| GameModel.SerialReprOf | crates/tinic_super/src/rdb_manager/game_model.rs:32-37 | the untagged `SerialRepr` is `Str` whenever the value reads as a `String`, and otherwise `Bin` exactly when it reads as a `ByteBuf` |
| GameModel.CrcOfBytesIsBigEndian | crates/tinic_super/src/rdb_manager/game_model.rs:85-87 | reading four bytes little-endian and then swapping them on a little-endian host is the big-endian reading of those bytes |
| GameModel.SetField | crates/tinic_super/src/rdb_manager/game_model.rs:60-112 | an unrecognised key leaves the record unchanged, and no key touches `rumble` or `rdb_name` |
| GameModel.SetKey | crates/tinic_super/src/rdb_manager/game_model.rs:60-112 | the field arm for a recognised key; `Unknown` changes nothing and `rumble`/`rdb_name` are never written |
| GameModel.VisitMap | crates/tinic_super/src/rdb_manager/game_model.rs:53-116 | the loop of `visit_map` yields the default record updated entry by entry, stopping at the first error |
| GameModel.DecodeItem | crates/tinic_super/src/rdb_manager/game_model.rs:39-120 | a reader error is passed on; a map that visits cleanly gives its record; every other failure on a record is a syntax error |
| GameModel.DecodeItems | crates/tinic_super/src/rdb_manager/game_model.rs:39-120 | decoding a stream decodes each record on its own, position by position |
| GameModel.SetFieldOnlyItsSlot | crates/tinic_super/src/rdb_manager/game_model.rs:60-112 | a key writes only the field it names; every other field keeps its value |
| GameModel.VisitKeepsSlot | crates/tinic_super/src/rdb_manager/game_model.rs:59-113 | entries that do not name a field leave that field as it was |
| GameModel.VisitAppend | crates/tinic_super/src/rdb_manager/game_model.rs:59-113 | visiting two runs of entries is visiting the first and then the second from its result, and an error in the first ends the visit |
| GameModel.LastOccurrenceWins | crates/tinic_super/src/rdb_manager/game_model.rs:59-113 | when a key occurs more than once, the field holds what its last occurrence decoded to |
| GameModel.UnknownKeyIgnored | crates/tinic_super/src/rdb_manager/game_model.rs:107-111 | an unknown key, such as `rumble`, has its value skipped and the record left unchanged |
| GameModel.VisitKeepsRumbleAndRdbName | crates/tinic_super/src/rdb_manager/game_model.rs:57-115 | no entry sets `rumble` or `rdb_name` |
| GameModel.DecodedRecordDefaults | crates/tinic_super/src/rdb_manager/game_model.rs:57-115 | every decoded record has `rumble` false and an empty `rdb_name`, the defaults |
| GameModel.CrcFromInt | crates/tinic_super/src/rdb_manager/game_model.rs:76-78 | an integer crc is stored unchanged |
| GameModel.CrcFromFourBytes | crates/tinic_super/src/rdb_manager/game_model.rs:79-88 | a 4-byte binary crc is stored as the big-endian reading of its bytes |
| GameModel.CrcOtherLengthIgnored | crates/tinic_super/src/rdb_manager/game_model.rs:79-89 | a binary crc of any other length is skipped and the previous crc stays |
| GameModel.SerialFromBytes | crates/tinic_super/src/rdb_manager/game_model.rs:99-104 | a binary serial is its text when the bytes are valid UTF-8, and no serial otherwise |
| GameModel.SerialFromEncodedText | crates/tinic_super/src/rdb_manager/game_model.rs:99-104 | the UTF-8 encoding of a text, given as a binary serial, gives that text back |
| GameModel.NumericFields | crates/tinic_super/src/rdb_manager/game_model.rs:69-71 | releaseyear, releasemonth and size store an in-range integer in their field |
| RdbParser.FlattenSnoc | crates/tinic_super/src/rdb_manager/rdb_parser.rs:33-37 | handing over one more batch appends its games to everything handed over so far |
| RdbParser.FullBatchesSnoc | crates/tinic_super/src/rdb_manager/rdb_parser.rs:35-37 | a batch taken when 50 games are pending keeps every handed-over batch exactly 50 long |
| RdbParser.BatchesOfFull | crates/tinic_super/src/rdb_manager/rdb_parser.rs:30-51 | the games handed over are exactly the full batches, whatever fewer than 50 are still pending |
| RdbParser.BatchesCover | crates/tinic_super/src/rdb_manager/rdb_parser.rs:30-51 | the batches are all full and hand over the decoded games in order, up to the last multiple of 50 |
| RdbParser.FloorBatch | crates/tinic_super/src/rdb_manager/rdb_parser.rs:35 | fewer than 50 games are ever left over |
| RdbParser.ShortStreamNoBatch | crates/tinic_super/src/rdb_manager/rdb_parser.rs:35-37 | a file with fewer than 50 records hands nothing to the listener |
| RdbParser.ReadRdbBlocking | crates/tinic_super/src/rdb_manager/rdb_parser.rs:14-54 | a read error is returned with nothing handed over; a file shorter than the 16-byte header is accepted with nothing handed over; otherwise the listener gets the full batches of the records before the first error, and the result is Ok exactly when that error is a marker, data or syntax error, else that error's message |
| RdbParser.EmitStep | crates/tinic_super/src/rdb_manager/rdb_parser.rs:32-37 | pushing a game keeps the pending games under 50 once a full batch is taken, and keeps the games handed over plus pending equal to the games decoded |
| RdbParser.EmitAdvance | crates/tinic_super/src/rdb_manager/rdb_parser.rs:31-38 | one successful call keeps the games handed over plus pending equal to the decoded prefix so far |
| RdbParser.Emit | crates/tinic_super/src/rdb_manager/rdb_parser.rs:28-51 | the loop stops with the first error of the stream and hands over the full batches of the records decoded before it |
| RdbParser.SingleRecordNeverEmitted | crates/tinic_super/src/rdb_manager/rdb_parser.rs:35-53 | a file holding one decodable record hands nothing to the listener, although that record decodes |
| RdbParser.FlushedCoversAll | crates/tinic_super/src/rdb_manager/rdb_parser.rs:30-53 | with the leftover flushed, every decoded game is handed over, in order, in batches of 1 to 50 |
| RdbParser.RdbPathsOfNames | crates/tinic_super/src/rdb_manager/rdb_parser.rs:67-72 | the files read are `dir/name.rdb` for exactly the database names some core lists |
| RdbParser.RdbPathInjective | crates/tinic_super/src/rdb_manager/rdb_parser.rs:71 | different database names give different files, so each database is read once |
| Rdb.ParseRdb | crates/tinic_super/src/database/rdb.rs:7-35 | with at least the 16-byte header present, the result is Ok with the records before the first error exactly when that error is a marker, data or syntax error, and that error's message otherwise |
| Rdb.WholeStreamDecoded | crates/tinic_super/src/database/rdb.rs:15-34 | a stream in which every record decodes gives every record, in order, and ends at the marker read past the end |
| DbHelper.MatchingMembers | crates/tinic_super/src/database/helper.rs:66-86 | a game is returned exactly when it was decoded and has a name whose lower-cased form contains the lower-cased query |
| DbHelper.MatchingAppend | crates/tinic_super/src/database/helper.rs:66-86 | games are kept record by record, so the result is in stream order |
| DbHelper.NamelessNeverMatches | crates/tinic_super/src/database/helper.rs:72-75 | a game without a name is never returned |
| DbHelper.SearchByName | crates/tinic_super/src/database/helper.rs:66-86 | when decoding ends on a marker, data or syntax error the matching games are returned in stream order; any other decode error is returned instead |
| DbHelper.CandidatesMembers | crates/tinic_super/src/database/helper.rs:31-38 | an rdb is searched exactly when it is listed and its name with ".rdb" removed is one of the core's databases |
| DbHelper.FirstWithCrcSpec | crates/tinic_super/src/database/helper.rs:49-56 | the game the callback keeps is the earliest whose crc32 equals the file's CRC, and none is kept only when no game has it |
| DbHelper.FindInSpec | crates/tinic_super/src/database/helper.rs:43-61 | a result is the first match of the first rdb that has one, every earlier rdb having none; no result means no rdb has a match |
| DbHelper.ScanForCrc | crates/tinic_super/src/database/helper.rs:49-56 | scanning one rdb yields the first decoded game with the file's CRC |
| DbHelper.IdentifierRomFile | crates/tinic_super/src/database/helper.rs:26-64 | a listing error, then a CRC error, is returned; otherwise the first match among the core's rdbs, in listing order, decode errors being ignored |
| DbHelper.FilterCandidates | crates/tinic_super/src/database/helper.rs:31-38 | the filter keeps the core's rdbs, in listing order |
| DbHelper.CandidatesStep | crates/tinic_super/src/database/helper.rs:33-37 | one listing entry is kept exactly when it is for the core |
| DbHelper.SearchRdbs | crates/tinic_super/src/database/helper.rs:43-61 | the loop over the candidates yields the match of the first rdb that has one |
| DbHelper.DownloadNamesMembers | crates/tinic_super/src/database/helper.rs:122-128 | a name is in the download list exactly when it is a requested name not ending in ".rdb", with ".rdb" appended |
| DbHelper.SuffixedNameDropped | crates/tinic_super/src/database/helper.rs:124-128 | a request already ending in ".rdb", such as "NES.rdb", is left out of the download list |
| DbHelper.DownloadNamesKept | crates/tinic_super/src/database/helper.rs:122-128 | the corrected list has one name per request: kept when it ends in ".rdb", suffixed otherwise |
| DbHelper.DownloadNamesKeptSuffixed | crates/tinic_super/src/database/helper.rs:122-128 | in the corrected list every request is fetched under a name ending in ".rdb" |
| DbHelper.FetchesSpec | crates/tinic_super/src/database/helper.rs:130-161 | only files missing from the database directory are fetched; when every download succeeds each missing file was fetched; a failure is the last download tried |
| DbHelper.DownloadDb | crates/tinic_super/src/database/helper.rs:109-164 | an empty request list is the error "dbs is empty" with nothing fetched; otherwise the suffixed names are fetched in order, skipping present files and stopping at the first failed download |
| DbHelper.WithRdbSuffix | crates/tinic_super/src/database/helper.rs:122-128 | the first loop builds exactly the download list |
| DbHelper.FetchMissing | crates/tinic_super/src/database/helper.rs:130-161 | the second loop fetches the missing files in order and stops at the first failure |
| InfoModel.LookupMissing | crates/tinic_super/src/infos/model.rs:84 | a key that matches no arm of `set_value` names no field |
| InfoModel.LookupAt | crates/tinic_super/src/infos/model.rs:50-85 | a key is decided by its own arm of the match |
| InfoModel.KeysDistinct | crates/tinic_super/src/infos/model.rs:50-85 | the recognised keys are pairwise distinct, so each key has one arm |
| InfoModel.FieldsDistinct | crates/tinic_super/src/infos/model.rs:50-85 | no two keys write the same field |
| InfoModel.KeyField | crates/tinic_super/src/infos/model.rs:50-85 | each recognised key names its own field, and any other key names none |
| InfoModel.BooleanValue | crates/tinic_super/src/infos/model.rs:45-47 | a flag is true exactly when the value is the text "true" |
| InfoModel.SetValue | crates/tinic_super/src/infos/model.rs:49-86 | the key writes at most the one field it names (a text field takes the value, a flag whether it is "true", `database` its '\|'-separated parts); unknown keys change nothing; file name, path, installed flag, `required_hw_api` and `is_experimental` are never written |
| InfoModel.DatabaseRoundTrip | crates/tinic_super/src/infos/model.rs:78-80 | the `database` parts joined with '\|' give back the value, so splitting keeps every part in order |
| InfoModel.Distinct | crates/tinic_super/src/infos/model.rs:109-112 | the collected names are exactly the database entries, each once |
| InfoModel.GetRdbName | crates/tinic_super/src/infos/model.rs:109-112 | a core's rdb names are exactly its database entries, each exactly once |
| InfoModel.AllRdbNamesMembers | crates/tinic_super/src/infos/model.rs:90-99 | a name is among all the rdb names exactly when some core lists it as a database |
| InfoModel.GetRdbNames | crates/tinic_super/src/infos/model.rs:90-99 | the loop extends the output with each core's rdb names, core after core |
| InfoModel.GetFileName | crates/tinic_super/src/infos/model.rs:101-107 | one file name per core, in the cores' order |
| InfoReader.SplitOnce | crates/tinic_super/src/infos/read_file.rs:45 | no split exactly when the line has no '='; otherwise the parts rebuild the line around its first '=' |
| InfoReader.SetInfoValue | crates/tinic_super/src/infos/read_file.rs:44-55 | a line without '=' changes nothing, and no line touches the file name, path, installed flag, hardware API or experimental flag |
| InfoReader.SetInfoValueAt | crates/tinic_super/src/infos/read_file.rs:44-55 | a line `key=value` sets the field named by the trimmed key to the cleaned value |
| InfoReader.SplitOnceAt | crates/tinic_super/src/infos/read_file.rs:45 | the line is split at the first '=' only, so the value may hold more '=' |
| InfoReader.SetInfoValueExample | crates/tinic_super/src/infos/read_file.rs:46-53 | the line `corename = "Snes9x"` sets the core name to Snes9x |
| InfoReader.ExampleLine | crates/tinic_super/src/infos/read_file.rs:46-53 | that line is `set_value("corename", "Snes9x")` |
| InfoReader.CoreNameKey | crates/tinic_super/src/infos/model.rs:55 | the key "corename" writes the core name |
| InfoReader.TrimExample | crates/tinic_super/src/infos/read_file.rs:47 | the key is trimmed of its trailing space |
| InfoReader.CleanExample | crates/tinic_super/src/infos/read_file.rs:48-52 | the value ` "Snes9x"` is cleaned to Snes9x: outer quotes trimmed, then the first space and the first quote removed |
| InfoReader.FoldLinesSnoc | crates/tinic_super/src/infos/read_file.rs:35-37 | lines are applied in order, each on top of all earlier ones |
| InfoReader.FoldLinesStopsAtError | crates/tinic_super/src/infos/read_file.rs:35-37 | nothing after the first failing line read is applied |
| InfoReader.ApplyLinesKeepsFixedFields | crates/tinic_super/src/infos/read_file.rs:35-37 | reading lines never touches the file name, path, installed flag, hardware API or experimental flag |
| InfoReader.LastLineWins | crates/tinic_super/src/infos/read_file.rs:35-37 | the last line naming a text field decides that field |
| InfoReader.FirstIndexAfterKey | crates/tinic_super/src/infos/read_file.rs:45 | the first '=' of `key=value` is the one right after a key without '=' |
| InfoReader.FileNameInfo | crates/tinic_super/src/infos/read_file.rs:57-67 | the file name is the path's last component with every ".info" removed, and a path without one is the error "File has no file name" |
| InfoReader.ReadInfoFile | crates/tinic_super/src/infos/read_file.rs:5-42 | opening fails or a path without file name is an error; otherwise the lines before the first read failure are applied in order to a default info whose path is the input path, and the file name is set last |
| Art.DisplayDistinct | crates/tinic_super/src/art/thumbnail.rs:12-21 | the three kinds display as distinct texts, none of which holds a space |
| Art.ReplaceSpaces | crates/tinic_super/src/art/mod.rs:19-20 | replacing every " " by "%20" is escaping the spaces one character at a time |
| Art.EscapeSpacesSpec | crates/tinic_super/src/art/mod.rs:19-20 | the escaped text holds no space, and a text without spaces is left as it is |
| Art.ThumbnailUrlShape | crates/tinic_super/src/art/mod.rs:14-22 | the URL is the base, the escaped system and "/", then the kind's directory, then "/", the escaped name and ".png" |
| Art.ThumbnailUrlsDiffer | crates/tinic_super/src/art/mod.rs:47-49 | the three URLs of a game differ only in the kind segment and so are pairwise distinct |
| Art.SetSlot | crates/tinic_super/src/art/mod.rs:74-78 | the `match art_type` assignment sets the slot of that kind and leaves the other two as they were |
| Art.DefaultThumbnails | crates/tinic_super/src/art/thumbnail.rs:25-30 | a default record has no file and an empty URL in every slot |
| Art.DownloadAllThumbnailFromGame | crates/tinic_super/src/art/mod.rs:41-82 | the result is Ok, and each kind's slot holds the outcome of downloading its URL as `name.png` into `dest/<kind>`, together with that URL |
| Art.UrlsRecorded | crates/tinic_super/src/art/mod.rs:59-79 | every slot records its URL, which is never empty, whatever the download gave; a failed download leaves the path None |
| ExtractFiles.FinalNameDistinct | crates/tinic_super/src/tools/extract_files.rs:84-91 | the first file keeps its base name, and the later ones with the same base name get pairwise distinct names |
| ExtractFiles.Extract7zipFile | crates/tinic_super/src/tools/extract_files.rs:62-119 | the directories are unchanged and the files, counters, offered names and actions are those of walking the entries one by one until one ends the extraction |
| ExtractFiles.ExtractEntry | crates/tinic_super/src/tools/extract_files.rs:72-115 | one entry updates the files and the run exactly as one step of the walk says |
| ExtractFiles.WalkAdvance | crates/tinic_super/src/tools/extract_files.rs:69-116 | while the extraction runs, the remaining entries are handled one step after the other, in archive order |
| ExtractFiles.DirectoryPassedOver | crates/tinic_super/src/tools/extract_files.rs:73-75 | a directory entry is neither counted nor offered to the callback, and changes nothing |
| ExtractFiles.StoppedStaysStopped | crates/tinic_super/src/tools/extract_files.rs:110-113 | once the callback answers Stop no further entry is looked at |
| ExtractFiles.WalkCounts | crates/tinic_super/src/tools/extract_files.rs:85-93 | over an extraction that runs to the end, each base name's counter rises by exactly its number of file entries, and the callback is called exactly once per file entry |
| ExtractFiles.StepCounts | crates/tinic_super/src/tools/extract_files.rs:73-93 | one entry raises its base name's counter and the number of callback calls by one when it is a file, and by nothing when it is a directory |
| ExtractFiles.StepNames | crates/tinic_super/src/tools/extract_files.rs:78-93 | a file is offered under its last path component, with the counter so far as prefix when that is not 0, and only its own counter rises |
| ExtractFiles.ActionsTakeEffect | crates/tinic_super/src/tools/extract_files.rs:93-114 | Stop ends the extraction with no write, Jump skips the file, and Extract writes the entry's bytes to `dest/final_name` and goes on |
| ExtractFiles.CounterNameCollides | crates/tinic_super/src/tools/extract_files.rs:84-91 | the second file named "a" is offered as "1_a", the very name an entry called "1_a" keeps |
| GameIdentifier.FirstDotAfterStem | crates/tinic_super/src/tools/game_identifier.rs:28 | in `stem.ext` with a dot-free stem the first dot is the one after the stem |
| GameIdentifier.NamedFile | crates/tinic_super/src/tools/game_identifier.rs:28-48 | a file `dir/stem.ext` has extension ext and file prefix stem |
| GameIdentifier.RomByExtension | crates/tinic_super/src/tools/game_identifier.rs:44-55 | such a file is taken for a ROM exactly when its lower-cased extension is not blacklisted |
| GameIdentifier.UpperCaseBlacklisted | crates/tinic_super/src/tools/game_identifier.rs:14-52 | a blacklisted extension written in upper case, such as "PNG", is refused |
| GameIdentifier.MixedCaseBlacklisted | crates/tinic_super/src/tools/game_identifier.rs:14-52 | a blacklisted extension in mixed case, such as "Zip", is refused |
| GameIdentifier.OrdinaryRomTaken | crates/tinic_super/src/tools/game_identifier.rs:54 | an extension not on the list, such as "nes", is taken |
| GameIdentifier.NoExtensionNotRom | crates/tinic_super/src/tools/game_identifier.rs:45-48 | a file name without a dot has no extension and is never a ROM |
| GameIdentifier.New | crates/tinic_super/src/tools/game_identifier.rs:20-42 | a path that is not a ROM is refused with "arquivo invalido" before any file is opened; otherwise the file is opened, a probe error is returned, a path without file prefix is an error, and the identifier holds the path, the prefix, the CRC and the size |
| GameIdentifier.TestRomName | crates/tinic_super/src/tools/game_identifier.rs:28-34 | the test ROM `240pTestSuite.nes` is named "240pTestSuite", whatever its directory |
| GameIdentifier.TestRomPath | crates/tinic_super/src/tools/game_identifier.rs:28-34 | the test ROM's path is its directory, "/", the stem, "." and the extension |
| CoreInstall.RemoveSoExtensionOfStem | crates/tinic_super/src/cores/installed.rs:9-11 | removing the library suffixes never touches a leading part without a dot |
| CoreInstall.RemoveSoExtensionExamples | crates/tinic_super/src/cores/installed.rs:9-11 | "name.so" and "name.dll" both become "name", and a dot-free name is kept |
| CoreInstall.Select | crates/tinic_super/src/cores/installed.rs:30-45 | an extracted name that is still wanted gives Extract and leaves the wanted set; an unwanted name gives Stop exactly when nothing is wanted any more and Jump otherwise; download events give Jump; the set only shrinks |
| CoreInstall.InstallCore | crates/tinic_super/src/cores/installed.rs:13-48 | the extraction into the cores directory runs with the selection closure from the normalised requested names, and nothing but the files changes |
| CoreInstall.ExtractedSnoc | crates/tinic_super/src/cores/installed.rs:34-36 | one more offered name adds to the extracted names exactly when the closure chose Extract |
| CoreInstall.StepInstalling | crates/tinic_super/src/cores/installed.rs:30-45 | one archive entry keeps the invariant: the wanted set only shrinks and every extracted core was wanted, is no longer wanted, and was extracted once |
| CoreInstall.OfferInstalling | crates/tinic_super/src/cores/installed.rs:31-43 | one call of the closure keeps that invariant |
| CoreInstall.WalkInstalling | crates/tinic_super/src/cores/installed.rs:26-46 | over a whole extraction each wanted core is extracted at most once and nothing unwanted is |
| CoreInstall.InstallCoreExtractsOnce | crates/tinic_super/src/core_info/install_core.rs:12-41 | from the normalised requested names, every run of the installation ends in that invariant |
| CoreInstall.ThisCoreIsInstalled | crates/tinic_super/src/cores/installed.rs:50-70 | a listing error is returned; otherwise the loop gives the answer of the installed rule, stopping at the first entry or metadata error |
| CoreInstall.InstalledIff | crates/tinic_super/src/cores/installed.rs:50-70 | when every entry and its metadata can be read, the answer is true exactly when some regular file with a valid name contains the query |
| DbModel.DefaultGameInDb | crates/tinic_database/src/model.rs:3-22 | a default record has every optional field None and rumble false |
| DbModel.OptStr | crates/tinic_database/src/model.rs:33-38 | None is bound as Null and `Some(s)` as the text s |
| DbModel.OptU64 | crates/tinic_database/src/model.rs:40-45 | None is Null; a u64 is cast to i64, exact up to `i64::MAX` and wrapped to a negative integer above it |
| DbModel.OptU32 | crates/tinic_database/src/model.rs:47-52 | None is Null; a u32 is stored as the same integer |
| DbModel.OptBool | crates/tinic_database/src/model.rs:54-56 | a flag is stored as 1 for true and 0 for false |
| DbModel.ReadOptString | crates/tinic_database/src/sqlite_query_tools.rs:3-5 | a column reads as Some exactly when it is there and holds text, and then as that text; Null, another type or a missing column read as None |
| DbModel.ReadOptU32 | crates/tinic_database/src/sqlite_query_tools.rs:7-12 | a column reads as Some exactly when it holds an integer, cast to u32 (its low 32 bits) |
| DbModel.ReadOptU64 | crates/tinic_database/src/sqlite_query_tools.rs:14-19 | a column reads as Some exactly when it holds an integer, cast to u64 (negative values wrap) |
| DbModel.OptRoundTrips | crates/tinic_database/src/sqlite_query_tools.rs:3-19 | every optional string, u32 and u64 the `opt_*` helpers bind is read back unchanged by its reader |
| DbModel.ReadGameInfo | crates/tinic_database/src/sqlite_query_tools.rs:21-45 | a row reads exactly when its rumble column 17 holds an integer, and rumble is that integer being non-zero |
| DbModel.InsertBinds | crates/tinic_database/src/query.rs:27-47 | each game binds 17 values, the k-th field at position k |
| DbModel.RowOf | crates/tinic_database/src/query.rs:27-49 | the stored row holds the id, then the value bound at position k in column k, then `last_played_at` 0 |
| DbModel.RowOfColumns | crates/tinic_database/src/query.rs:34-45 | a stored game's crc, rom name, rom path and core path sit in the columns the queries test |
| DbModel.ReadStoredGame | crates/tinic_database/src/sqlite_query_tools.rs:21-44 | `read_game_info` reads every field from the column the insert bound it to, so a stored game reads back unchanged |
| DbModel.OptRoundTripStr | crates/tinic_database/src/sqlite_query_tools.rs:3-5 | a column that holds an `opt_str` value reads back as the original option |
| DbModel.OptRoundTrip32 | crates/tinic_database/src/sqlite_query_tools.rs:7-12 | a column that holds an `opt_u32` value reads back as the original option |
| DbModel.OptRoundTrip64 | crates/tinic_database/src/sqlite_query_tools.rs:14-19 | a column that holds an `opt_u64` value reads back as the original option, the wrap being undone |
| DbQuery.StoredRow | crates/tinic_database/src/query.rs:23-50 | an INSERT stores the id, each position's last bind in its column, and `last_played_at` 0 |
| DbQuery.ValueAtPositions | crates/tinic_database/src/query.rs:27-47 | binds made once at positions 1, 2, … in order leave the k-th value at position k and nothing elsewhere |
| DbQuery.InsertBindsStoreRowOf | crates/tinic_database/src/query.rs:27-49 | the INSERT of a game stores each field in the column its reader reads |
| DbQuery.Db.constructor | crates/tinic_database/src/query.rs:11-13 | an opened database starts with an empty game table |
| DbQuery.Db.Execute | crates/tinic_database/src/query.rs:23-56 | a plain statement is recorded and leaves the table alone |
| DbQuery.Db.Insert | crates/tinic_database/src/query.rs:49-50 | one INSERT adds a row under the next id, and fails with nothing added when the ids are used up |
| DbQuery.InsertGameInfos | crates/tinic_database/src/query.rs:15-58 | an empty list returns Ok without touching the connection; otherwise a transaction is begun, the games are inserted in order until the first failure, and COMMIT is executed only when every insert succeeded |
| DbQuery.InsertAllRows | crates/tinic_database/src/query.rs:26-51 | with ids to spare every game is inserted after the existing rows, under the next ids in order |
| DbQuery.NewRowsStore | crates/tinic_database/src/query.rs:26-51 | the inserted rows read back as exactly the games, each with its crc in the crc column |
| DbQuery.InsertAllStores | crates/tinic_database/src/query.rs:15-58 | with ids to spare the insert succeeds, keeps the old rows and ends the table with rows that read back as the games |
| DbQuery.PlaceholdersShape | crates/tinic_database/src/query.rs:72-76 | the placeholder text for n crcs has n '?' separated by n − 1 commas |
| DbQuery.CrcBinds | crates/tinic_database/src/query.rs:82-84 | the i-th crc is bound at position i + 1 as its integer value |
| DbQuery.PrependJoin | crates/tinic_database/src/query.rs:86-90 | rows read one after another are collected in order |
| DbQuery.SelectByCrc32List | crates/tinic_database/src/query.rs:64-96 | an empty list returns an empty result with nothing prepared; otherwise the IN query with its placeholders is prepared, the crcs are bound in order, and the matching rows are read in table order, the first unreadable row being the error |
| DbQuery.WithCrcInMembers | crates/tinic_database/src/query.rs:64-96 | the reference selection keeps exactly the games whose crc is listed |
| DbQuery.InListIff | crates/tinic_database/src/query.rs:78 | a stored game satisfies `crc32 IN (…)` exactly when its crc is one of the listed crcs |
| DbQuery.SelectStoredGames | crates/tinic_database/src/query.rs:64-96 | over a table of stored games the query returns exactly the games whose crc is listed, in table order |
| DbQuery.StoresTail | crates/tinic_database/src/query.rs:88-90 | the rows after the first still store the games after the first |
| DbQuery.Page | crates/tinic_database/src/query.rs:116-121 | a page holds at most `page_size` rows |
| DbQuery.FirstPageTwice | crates/tinic_database/src/query.rs:116 | pages 0 and 1 both start at offset 0 |
| DbQuery.PagesTile | crates/tinic_database/src/query.rs:116-117 | with the exact offset each page starts where the previous one ended, so consecutive pages cover the result in order |
| DbQuery.OffsetExactWhileSmall | crates/tinic_database/src/query.rs:116 | the written offset is exact while the product fits a u32 |
| DbQuery.OffsetWraps | crates/tinic_database/src/query.rs:116 | page 65537 of 65536 rows has the exact offset 2^32, which the u32 product wraps to 0, the first page |
| DbQuery.ListGamesWithRomPathPaginated | crates/tinic_database/src/query.rs:111-136 | the loop returns the rows of the ordered result from the offset, at most `page_size` of them |
| DbQuery.UpdateWhereRows | crates/tinic_database/src/query.rs:147-187 | the UPDATE sets both paths of exactly the matching rows and leaves every other row unchanged |
| DbQuery.NoMatchNoChange | crates/tinic_database/src/query.rs:160-168 | an UPDATE that matches no row leaves the table as it was |
| DbQuery.MatchCountZero | crates/tinic_database/src/query.rs:161-167 | the change count is zero exactly when no row matches |
| DbQuery.UpdateStep | crates/tinic_database/src/query.rs:147-187 | one row of the UPDATE is set or kept, and counted exactly when it matches |
| DbQuery.UpdateWhereMethod | crates/tinic_database/src/query.rs:147-187 | the table becomes the updated table and the change count is the number of matching rows |
| DbQuery.UpdateGamePaths | crates/tinic_database/src/query.rs:138-188 | with a crc that matches rows, those rows are updated and their number returned; otherwise the rows with an equal rom name are updated and counted |
| DbQuery.UpdatedGameReadsBack | crates/tinic_database/src/query.rs:145-187 | an updated stored game reads back with the new paths and every other field unchanged |
| DbQuery.RomNameMatches | crates/tinic_database/src/query.rs:177 | a stored game is matched by the rom-name fallback exactly when its rom name is that name |

## Left out

- The C trampolines and the process-wide `CORE_CONTEXT` of `core_env/env_video.rs` are not modelled. They are raw function pointers and `transmute`; the dispatchers are modelled directly.
- Of the FFI helpers, `make_c_string` is modelled like `CString::new`, which fails on an interior NUL. `get_str_from_ptr` and the `ffi_tools` file are not part of this model.
- `validate_non_null_ptr` and `validate_non_null_mut_ptr` are not modelled as operations. A pointer is an `Option` at each point of use, and the null case is handled there.
- `std::fs::canonicalize` in `validate_file_path` and `validate_directory_path` is taken as the identity. File metadata, sizes and contents are oracle values.
- The error path of the option manager's `get_opt_value` inside GET_VARIABLE is not modelled. The option manager is abstracted as its answers.
- `Keyboard::get_key_name_from_native_button` is `todo!()` in the source and is not modelled.
- The resamplers, the cpal device and stream setup, and the `image` save of a screenshot are not modelled. For a screenshot only the RGB buffer is modelled, and 16-bit pixels are read little-endian as on the host.
- Lock poisoning and recovery in `TMutex` are not modelled: every lock is a plain field.
- `f32` and `f64` values are taken as reals. Rounding in `Duration::from_secs_f64` is not modelled.
- Real sleeping, clocks and threads are not modelled. Times are inputs.
- The gamepad polling thread, gilrs and `retro_gamepad.rs` are not modelled. A gamepad's button state is an input of `get_input_state`.
- retro_perf, the window and GPU backends, the event loop and UI, and IPC are not part of this model.
- CRC-32 over file contents (crc32fast) is an oracle value. MessagePack byte decoding (rmp_serde) is modelled by its outcomes: decoded values or the error variant that stopped it.
- SQLite is reduced to a sequence of rows in insertion order. Rows are stored column by column as bound, and `WHERE column = ?` compares values for equality. Type affinity and coercions are not modelled. A SELECT is taken to return rows in table order.
- `list_consoles`, `delete_all_games` and `create_game_table` are not modelled. They are single statements of the SQL engine with no logic of their own.
- The row decoding of `GameInfoPagination` is not modelled. The paginated query is modelled over the engine's ordered result.
- `insert_game_infos` binds `game.rdb_name` at position 12, but `GameInfoInDb` has no such field, only `console_name`. The model binds `console_name` there, the field `read_game_info` reads from column 12.
- `insert_game_infos` leaves a transaction open when an insert fails. The model records that no COMMIT follows; what SQLite does with the open transaction is not modelled.
- `PageOffset` models the release build's wrapping `u32` multiplication. The panic a debug build raises on overflow is not modelled.
- Lower-casing (`to_lowercase`) is modelled for ASCII letters only. Paths follow Unix separator rules only.
- `HashSet` iteration order is unspecified. `get_rdb_name` is modelled keeping first occurrences, and the wanted set of `install_core` as a set.
- `GameIdentifier::from_dir`, `get_installed_cores`, `get_installed_rdb` and `get_all_games` / `parse_all_rdb_to_vec` are not modelled as operations. `identifier_rom_file` takes the installed rdb listing as an outcome.
- The `rdb file no exist` error of `identifier_rom_file` cannot occur in the model, since paths are Unicode strings.
- `database/helper.rs` calls `parse_rdb` with a per-game callback. That form is not part of this model. The callback is applied to the games decoded before the decoder stops, a `true` answer ending the scan. `identifier_rom_file` ignores the scan's own outcome, as the source does with `let _ =`.
- Async tasks and `spawn_blocking` are not modelled. `read_rdb` and `read_rdb_from_cores` are modelled as their blocking body and their set of paths. `download_file`, `download_thumbnail`, the `database::game` module and `debug_rdb` are not part of this model.
- Keyboard.Keyboard.GetKeyBitmasks: requires a well-formed key table: every id is a joypad button below 16, and no key or id appears twice. Without it the source's `i16` sum of bits could overflow or count a button twice.
- Audios.AudioNewFrame.FillOutput: requires a positive channel count, since the source divides by it. `audio_driver.rs`'s output callback is the same drain and is covered by this method.
- Sync.RetroSync.SyncNow: requires a positive frame rate and a non-negative sleep computation. These exclude the panics of `Duration::from_secs_f64` on a negative duration.
- Sync.RetroSync.PrepareSyncData: requires a positive frame rate and a non-negative rate-control delta. These exclude the `clamp` and `from_secs_f64` panics.
- PrintScreen.Take: requires the frame buffer to hold at least `(height - 1)·pitch + width·bytes-per-pixel` bytes (`Covers`), the last byte the converter reads, since the source reads raw memory over that span.
- RetroCore.RetroCore.constructor: the failure of `LibretroRaw::new`, reported as "Não foi possível abrir o core selecionado", is not modelled. Opening a shared library is a foreign call, so the constructor starts from a library that has been opened.
- ExtractFiles.Extract7zipFile: the I/O errors that `?` passes on from `std::io::copy` (draining a skipped entry, writing an extracted one) and from `File::create` are not modelled. The archive reader and the destination are oracles whose reads and writes succeed.
- Rdb.ParseRdb: requires at least the 16-byte header, since the slice `&data[0x10..]` panics on a shorter file. The panic of the `unwrap` on a failed file read is not modelled; the bytes are an input.

## Findings

| source | as written | input that shows it | evidently intended | confidence | as-written member | corrected member |
|---|---|---|---|---|---|---|
| crates/tinic_super/src/rdb_manager/rdb_parser.rs:30-53 | games are handed to the listener only in batches of 50, and the pending games are dropped when the loop ends | a file whose body decodes to a single record: that record is decoded but never handed over | hand over the remaining games after the loop | not executed | RdbParser.ReadRdbBlocking, RdbParser.SingleRecordNeverEmitted | RdbParser.BatchesFlushed, RdbParser.FlushedCoversAll |
| crates/tinic_super/src/database/helper.rs:122-128 | only names without ".rdb" are pushed to the download list, so a name already ending in ".rdb" is never fetched | `download_db` with `["NES.rdb"]` fetches nothing and returns Ok | keep such a name as it is | not executed | DbHelper.DownloadDb, DbHelper.SuffixedNameDropped | DbHelper.DownloadNamesKept, DbHelper.DownloadNamesKeptSuffixed |
| crates/tinic_database/src/query.rs:116 | `page.saturating_sub(1) * page_size` is a `u32` product, which wraps in a release build | page 65537 with page size 65536 has offset 2^32, which wraps to 0 and repeats the first page | compute the offset in 64 bits | not executed | DbQuery.ListGamesWithRomPathPaginated, DbQuery.OffsetWraps | DbQuery.PageOffsetExact, DbQuery.PagesTile |

The operations themselves (`ReadRdbBlocking`, `DownloadDb` and
`ListGamesWithRomPathPaginated`) model the code as written. The corrected
definitions sit beside them with the intended property proved.
