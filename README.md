# Flash loader model

A Dafny model of the core of the 32blit flash loader firmware
(`firmware/flash-loader/flash-loader.cpp`):

- **`FlashLoader::StreamData`** receives a record from the USB command stream and saves it as a
  file on the SD card. The record is `<name> 0x00 <ASCII decimal length> 0x00 <payload>`. The
  receiver keeps its state in function statics:
  - the stage (NONE, NAME, LENGTH, DATA);
  - three fixed buffers of 256, 16 and 256 bytes;
  - the write pointer `p`;
  - the 32-bit counters `bytes_total` and `bytes_read`.

  It stores every byte at `p` before looking at it. It flushes the payload to the file in pieces
  of at most 256 bytes. Each call returns `srContinue`, `srFinish` or `srError`, and a record may
  arrive across any number of calls.
- **`FlashLoader::StreamInit`** maps the command FourCC (PROG, SAVE, `__LS`) to the handler's
  mode fields and to whether a data stream follows.
- **`flash_from_sd_to_qspi_flash`** programs the QSPI flash from an image file on the SD card. It
  opens the file and erases `size / 64 KiB + 1` sectors from address 0 upwards. It then copies
  the file in reads of at most 4 KiB, writing each read at the offset reached so far.
- **The menu helpers:**
  - `ends_with`;
  - the `.bin` filter of `load_file_list`;
  - `select_file`, which selects the last entry with a given name;
  - `modulo`, which wraps the menu selection in `update`.

## Structure

- `common.dfy` (`Common`):
  - bytes and 32-bit counters, with the wrap-around of `x + 1`;
  - the record of calls made to the collaborators (`Event`);
  - the outside world (`Env`): the readable files, a fault schedule and the call log.
- `ctext.dfy` (`CText`): what the receiver relies on from the C library:
  - reading a NUL-terminated string out of a buffer;
  - `atol`, modelled as `strtol` clamped to `long` and then converted to `UINT`;
  - the decimal text a host sends for a length.
- `stream.dfy` (`Stream`): the receive state machine as functions of the statics, the world and
  the input bytes:
  - `Step` is one turn of the `while (stream.Get(byte))` loop;
  - `Run` is the loop;
  - `Feed` is one call;
  - `Calls` splits the input over several calls.

  It also holds the invariant every turn keeps (`Accounted`) and the lemma that splitting the
  input does not matter.
- `stream_record.dfy` (`StreamRecord`): what a call does with a whole well-formed record, and
  with the records that are not well formed.
- `devices.dfy` (`Devices`): the collaborators the core calls but cannot see into: FatFs, the
  QSPI driver, the progress bar, and the menu reload and selection.
  - The class `Peripherals` logs every call.
  - `f_open`, `f_read`, `f_write` and `qspi_write_buffer` fail when the fault schedule says so.
    Each consumes one entry of the schedule; once it is exhausted, every call succeeds.
- `loader.dfy` (`Loader`): the `FlashLoader` handler as a class.
  - Its fields are the statics of `StreamData`, with the three buffers as arrays.
  - `StreamData` is the `while` loop over the command stream, proved to do exactly what
    `Stream.Feed` says: the same result, statics, world and bytes taken.
- `local_flash.dfy` (`LocalFlash`): `flash_from_sd_to_qspi_flash` as a method with the erase
  loop and the copy loop, proved equal to the function `Program`. Lemmas say what `Program`
  does to the flash.
- `menu.dfy` (`Menu`): the file menu as a class `FileMenu`, plus `ends_with`, the C remainder
  and `modulo`.

Behaviour of the code that a reader of the protocol might not expect, which the model keeps
as written (all lines are in `firmware/flash-loader/flash-loader.cpp`):

- A record that declares length 0 is not finished at its length terminator. `bytes_read` is
  incremented (line 419) before it is compared with `bytes_total` (lines 421 and 431), so the
  receiver stays in DATA. With nothing failing, it keeps taking bytes until the counter wraps
  after 2^32 of them (`ZeroLengthKeepsReceiving`).
- A failed `f_open` (lines 405-408) leaves the receiver in LENGTH, with `p` already at the data
  buffer and the counters already set (lines 401-403). A failed `f_write` (lines 423-425)
  leaves it in DATA with the file open. Neither resets `state`.
- `StreamData` always writes a file on the SD card (lines 405 and 423). It does not look at the
  mode `StreamInit` chose (lines 296-312), so PROG also saves a file; the code that would have
  flashed the data is commented out.
- No store is bounds-checked (line 386). A byte stored past the end of a buffer is undefined
  behaviour, not a protocol error. A name or length field without a terminator in reach runs
  past its buffer (`LongNameOverruns`, `LongLengthOverruns`). So does the data buffer after
  an error: a failed `f_write` on a full buffer returns (line 424) before `p` goes back to
  the start (line 426), so the next call stores its first byte past the end
  (`FailedFlushOverruns`); a failed `f_open` leaves LENGTH storing into the data buffer
  (line 403), so 256 more bytes without a terminator run past it (`FailedOpenOverruns`).
  Neither `StreamData` nor `StreamInit` (lines 293-312) resets `state` or `p`, so the next
  PROG or SAVE command overruns the same way.
- `StreamInit` does not reset the statics of `StreamData` or its counters. It sets only the
  mode fields (lines 293-312).

## Model

| member | source | states |
|---|---|---|
| Common.Inc32Wraps | firmware/flash-loader/flash-loader.cpp:419 | `bytes_read++` on a `UINT` is the increment modulo 2^32 |
| CText.CStringPrefix | firmware/flash-loader/flash-loader.cpp:402-405 | what `atol` and `f_open` read from a buffer: the prefix before its first 0x00, with no 0x00 in it, followed by 0x00 unless it fills the buffer |
| CText.CStringOfTerminated | firmware/flash-loader/flash-loader.cpp:386-405 | a field stored with its terminator reads back as itself, whatever stale bytes follow in the buffer |
| CText.SkipSpacesSuffix | firmware/flash-loader/flash-loader.cpp:402 | `atol` skips exactly the leading white space |
| CText.DigitRunMaximal | firmware/flash-loader/flash-loader.cpp:402 | `atol` reads the longest run of digits after the sign |
| CText.Decimal | firmware/flash-loader/flash-loader.cpp:402 | the length text a host sends is a non-empty run of digits whose decimal value is the length, starting with `0` only for the length 0 |
| CText.DecimalFitsLengthBuffer | firmware/flash-loader/flash-loader.cpp:369 | every length up to `LONG_MAX` takes at most 10 digits, so it fits the 16-byte length buffer with its terminator |
| CText.AtolDecimal | firmware/flash-loader/flash-loader.cpp:402 | round trip: `atol` (modelled by `CText.Atol`) of a length's decimal text, terminated, gives back the length whatever follows in the buffer |
| Stream.Initial | firmware/flash-loader/flash-loader.cpp:366-376 | the statics at start-up are well formed and in NONE |
| Stream.Put | firmware/flash-loader/flash-loader.cpp:386 | `*p++ = byte` keeps the statics well formed, advances `p` by the bytes stored, and leaves the stage, the counters and the two buffers `p` does not point into unchanged |
| Stream.PutStores | firmware/flash-loader/flash-loader.cpp:386 | the bytes land in the buffer `p` points into, from `p` on, and the bytes before and after them keep their old values |
| Stream.NameByte | firmware/flash-loader/flash-loader.cpp:390-396 | the NAME case never ends the call and leaves the statics well formed |
| Stream.LengthByte | firmware/flash-loader/flash-loader.cpp:399-415 | the LENGTH case either continues or returns `srError`, never finishes, and never returns to NONE |
| Stream.DataByte | firmware/flash-loader/flash-loader.cpp:418-440 | the DATA case never overruns, and it returns `srFinish` exactly when it goes back to NONE |
| Stream.Step | firmware/flash-loader/flash-loader.cpp:385-441 | a turn that does not overrun leaves the statics well formed, and a turn that continues is not in NONE |
| Stream.StepAccounted | firmware/flash-loader/flash-loader.cpp:385-441 | every turn keeps `Accounted`: the model's map of readable files untouched (writes to the card are only logged), log only grows, writes of 1 to 256 bytes, close only on completion, completion ends with close, hide, list reload and selection of the received name, `srError` ends with the failed call, and a failed `f_open` or `f_write` comes only among the last two calls of a call that returns `srError` |
| Stream.Run | firmware/flash-loader/flash-loader.cpp:385-444 | the loop takes at most the bytes it is given; `srContinue` means it took them all and is not in NONE; any other result took at least one byte |
| Stream.FailedWriteIsError | firmware/flash-loader/flash-loader.cpp:405-425 | under `Accounted`, a failed `f_open` or `f_write` in a call's log means the call returned `srError`, with the failure among its last two calls |
| Stream.RunAccounted | firmware/flash-loader/flash-loader.cpp:385-444 | the whole loop keeps `Accounted`, whatever the input and the faults |
| Stream.RunFits | firmware/flash-loader/flash-loader.cpp:386 | a call that does not overrun stores its first byte inside the buffer |
| Stream.RemainingStep | firmware/flash-loader/flash-loader.cpp:385-441 | part way through a call, one more turn either ends the call with the call's result or leaves the rest of the loop on course for it, and the byte it stores fits its buffer |
| Stream.Feed | firmware/flash-loader/flash-loader.cpp:378-444 | the call, which starts with `Stream.Begin` (from NONE, a new record at the name buffer, lines 378-381): a call that returns `srContinue` consumed all its input and left the receiver mid-record |
| Stream.RunAppend | firmware/flash-loader/flash-loader.cpp:366-444 | reading `a + b` in one loop is reading `a`, then, unless that ended the call, `b` from where `a` left off |
| Stream.SplitInvariance | firmware/flash-loader/flash-loader.cpp:366-444 | the same bytes split over any number of calls give the same statics, world, result and bytes taken as one call |
| StreamRecord.ChunksSized | firmware/flash-loader/flash-loader.cpp:421 | the payload flushes in chunks of 1 to 256 bytes, all but the last exactly 256 |
| StreamRecord.WrittenChunkLog | firmware/flash-loader/flash-loader.cpp:421-427 | the flushes write exactly the chunks' bytes in order |
| StreamRecord.NameField | firmware/flash-loader/flash-loader.cpp:390-396 | the name is stored with its terminator and `p` moves to the length buffer |
| StreamRecord.LengthField | firmware/flash-loader/flash-loader.cpp:399-413 | at the length terminator `bytes_total` is the declared length and `bytes_read` is 0, then the named file is opened: DATA and continue on success, LENGTH and `srError` on failure |
| StreamRecord.FeedHeader | firmware/flash-loader/flash-loader.cpp:378-413 | from NONE a call takes exactly the header, keeps the name, and opens the file with the progress bar at the declared length, or returns `srError` in LENGTH |
| StreamRecord.RecordLogWrites | firmware/flash-loader/flash-loader.cpp:419-437 | the calls a record makes write exactly its payload |
| StreamRecord.FeedRecord | firmware/flash-loader/flash-loader.cpp:363-444 | with nothing failing, a whole record finishes exactly at its last byte and leaves the rest in the stream; the calls it makes are open, progress, each chunk flush with progress, then close, hide, reload, select; the file receives the payload in arrival order |
| StreamRecord.ZeroLengthNotFinishedAtHeader | firmware/flash-loader/flash-loader.cpp:400-419 | a header declaring length 0 leaves the call in DATA with `srContinue` |
| StreamRecord.ZeroLengthKeepsReceiving | firmware/flash-loader/flash-loader.cpp:419-431 | after a zero length, data bytes keep the call in DATA until `bytes_read` wraps |
| StreamRecord.LongNameOverruns | firmware/flash-loader/flash-loader.cpp:368-386 | a 256-byte name without terminator makes the next byte overrun the name buffer |
| StreamRecord.LongLengthOverruns | firmware/flash-loader/flash-loader.cpp:369-386 | a 16-byte length field without terminator makes the next byte overrun the length buffer |
| StreamRecord.FailedFlushOverruns | firmware/flash-loader/flash-loader.cpp:370-426 | a failed `f_write` of a full data buffer returns `srError` in DATA with `p` at the buffer's end, and the first byte of the next call, whatever the world then, overruns the data buffer |
| StreamRecord.FailedOpenOverruns | firmware/flash-loader/flash-loader.cpp:399-408 | a failed `f_open` returns `srError` in LENGTH with `p` at the start of the data buffer, and the next call overruns it after 256 bytes without a terminator |
| Loader.DataStream.Get | firmware/flash-loader/flash-loader.cpp:385 | `stream.Get(byte)` takes the next byte if there is one and reports whether it did |
| Loader.FlashLoader.constructor | firmware/flash-loader/flash-loader.cpp:366-376 | the handler starts with the statics of start-up, in three newly allocated buffers |
| Loader.FlashLoader.StreamInit | firmware/flash-loader/flash-loader.cpp:290-316 | returns false exactly for `__LS`, which sets the mode to stLS; PROG and SAVE set stFlashCDC or stSaveFile, stFilename and index 0; any other command changes nothing and returns true |
| Loader.FlashLoader.Store | firmware/flash-loader/flash-loader.cpp:386 | the array store and pointer increment are `Stream.Put` of the byte |
| Loader.FlashLoader.LengthTurn | firmware/flash-loader/flash-loader.cpp:399-415 | the LENGTH case on the arrays and the devices is `Stream.LengthByte`; the mode fields are untouched |
| Loader.FlashLoader.DataTurn | firmware/flash-loader/flash-loader.cpp:418-440 | the DATA case on the arrays and the devices is `Stream.DataByte`; the mode fields are untouched |
| Loader.FlashLoader.FlushData | firmware/flash-loader/flash-loader.cpp:420-427 | `f_write` of the buffered bytes; on success `p` returns to the start of the buffer and the progress bar shows the bytes received, on failure nothing else happens |
| Loader.FlashLoader.CloseRecord | firmware/flash-loader/flash-loader.cpp:431-436 | a completed record closes the file, returns to NONE, hides the bar, reloads the list and selects the received name |
| Loader.FlashLoader.Turn | firmware/flash-loader/flash-loader.cpp:385-441 | one loop turn on the arrays and the devices is `Stream.Step`; the mode fields are untouched |
| Loader.FlashLoader.NextByte | firmware/flash-loader/flash-loader.cpp:385-441 | one test of `stream.Get(byte)` and the turn it gets keep the call on course for the result `Stream.Feed` gives the whole call; the mode fields are untouched |
| Loader.FlashLoader.StreamData | firmware/flash-loader/flash-loader.cpp:363-444 | a call returns what `Stream.Feed` returns, leaves the statics and the world as `Feed` does, and takes exactly the bytes `Feed` consumes from the stream; the mode `StreamInit` set (`m_state`, `m_parseState`, `m_parseIndex`) is untouched |
| LocalFlash.FlashFromSdToQspiFlash | firmware/flash-loader/flash-loader.cpp:188-240 | the result and every call made are those of `Program` |
| LocalFlash.EraseSectors | firmware/flash-loader/flash-loader.cpp:204-208 | the erase loop makes exactly the calls of `EraseLog` for the sector count |
| LocalFlash.CopyToFlash | firmware/flash-loader/flash-loader.cpp:213-239 | the copy loop and its end make exactly the calls of `Copy` and return its result |
| LocalFlash.Copy | firmware/flash-loader/flash-loader.cpp:215-239 | the copy loop never shortens the log (that it only appends to it is stated by `CopyFlashes`) |
| LocalFlash.Program | firmware/flash-loader/flash-loader.cpp:188-240 | the function always makes at least one call (that the first is the open is stated by `ProgramFlashes`) |
| LocalFlash.SectorCountCovers | firmware/flash-loader/flash-loader.cpp:200 | `bytes_total / 65536 + 1`, modelled by `LocalFlash.SectorCount`: the erased sectors reach past the end of the image, at most the last lies wholly beyond it, and for a size that is a multiple of 64 KiB it does |
| LocalFlash.EraseLogShape | firmware/flash-loader/flash-loader.cpp:204-208 | the erase loop's calls, modelled by `LocalFlash.EraseLog`: sector k is erased at k * 65536 and reported as k, for k = 0, 1, ... in ascending order |
| LocalFlash.CopyFlashes | firmware/flash-loader/flash-loader.cpp:215-239 | from any offset, the copy loop only appends to the log, leaves the files alone, writes each chunk at the offset reached and erases nothing; on success the flash gets the rest of the file and the file is closed last; on failure the flash gets a prefix and the file is not closed |
| LocalFlash.CopyStops | firmware/flash-loader/flash-loader.cpp:215-225 | from any offset, the copy loop returns true exactly when none of its reads and flash writes failed; on false the failed call is its last call and the only failed one; every flash write carries between 1 and 4096 bytes |
| LocalFlash.CopySucceeds | firmware/flash-loader/flash-loader.cpp:213-239 | with no fault, the copy loop runs to the end and returns true |
| LocalFlash.ProgramFlashes | firmware/flash-loader/flash-loader.cpp:188-240 | the first call is the open; the result is true exactly when no open, read or flash write failed, and on false the last call is the only failed one; every flash write carries 1 to 4096 bytes; a file that does not open gives false after the open alone; otherwise the erases come first, true means the flash writes lay the whole file from address 0 in order and false that they lay a prefix of it; the files are untouched |
| LocalFlash.ProgramSucceeds | firmware/flash-loader/flash-loader.cpp:188-240 | with no fault, programming a file that is on the card returns true |
| LocalFlash.ProgramCopies | firmware/flash-loader/flash-loader.cpp:193-239 | once the file is open, the erases and captions come first, the copy loop lays the file from address 0, and the result is true exactly when no call failed |
| LocalFlash.ProgramLays | firmware/flash-loader/flash-loader.cpp:193-239 | once the file is open, the log is the open, the erases and the captions, followed by what the copy loop leaves from offset 0 |
| LocalFlash.ErasesBeforeWrites | firmware/flash-loader/flash-loader.cpp:199-233 | no sector is erased after the first flash write |
| Menu.EndsWithSuffix | firmware/flash-loader/flash-loader.cpp:20-24 | `ends_with(v, e)`, modelled by `Menu.EndsWith`, holds exactly when `e` is a suffix of `v`, and never when `e` is longer |
| Menu.BinFilesMembers | firmware/flash-loader/flash-loader.cpp:26-32 | the list holds exactly the listing's entries whose name ends in ".bin" |
| Menu.BinFilesNames | firmware/flash-loader/flash-loader.cpp:26-32 | every name in the list ends in ".bin" |
| Menu.BinFileName | firmware/flash-loader/flash-loader.cpp:26-32 | a name in the list has ".bin" as its last four characters |
| Menu.FileMenu.LoadFileList | firmware/flash-loader/flash-loader.cpp:26-32 | the loop leaves the list equal to the `.bin` entries of the listing, in listing order |
| Menu.LastMatch | firmware/flash-loader/flash-loader.cpp:36-42 | gives an index whose entry has the name and no later entry has it, or -1 when no entry has it |
| Menu.FileMenu.SelectFile | firmware/flash-loader/flash-loader.cpp:36-42 | the selection becomes the last index with the name, and is unchanged when there is none |
| Menu.CRem | firmware/flash-loader/flash-loader.cpp:137 | C's `%` is smaller than the divisor in magnitude and takes the sign of the dividend, and differs from the dividend by a multiple of the divisor |
| Menu.ModuloIsRemainder | firmware/flash-loader/flash-loader.cpp:136-138 | `modulo(x, n)`, modelled by `Menu.Modulo`, for an `int32_t` `x` and `0 < n <= 2^30`, lies in `[0, n)` and is congruent to `x` mod `n` |
| Menu.EmptyListWrapUndefined | firmware/flash-loader/flash-loader.cpp:168-169 | with no `.bin` file, the wrap-around as written divides by zero |
| Menu.WrapSelects | firmware/flash-loader/flash-loader.cpp:166-169 | the corrected wrap-around gives 0 on an empty list, otherwise an index of the list congruent to the selection, and agrees with the code whenever the list is not empty |
| Menu.FileMenu.Navigate | firmware/flash-loader/flash-loader.cpp:166-169 | up and down move the selection by one, then it wraps around the list |

## Left out

- Graphics are not modelled: `render`, `background`, the text and the watermark. They are
  drawing only, and use floating point.
- The button edge and repeat detection in `update` is not modelled. `Navigate` takes the
  resulting `up` and `down`.
- The floating-point scroll easing is not modelled.
- `blit_switch_execution` is not modelled. It leaves the loader.
- Command registration in `init` is not modelled. It is the foreign `CDCCommandStream` API.
- `m_fPercent` is not modelled. It is a floating-point progress value that nothing live reads.
- `sort` in `load_file_list` is not modelled. The ordering of `FileInfo` is declared in a header
  that is not part of this model. `Menu.FileMenu.LoadFileList` leaves the entries in listing
  order, so the indices `select_file` finds refer to that order.
- `SaveData` and `copy_from_usb_to_sd_card` are not modelled. Nothing live calls them.
- All commented-out code is not modelled, including the flash destination of `StreamData`, the
  read-back verify and `Update`.
- FatFs and QSPI driver internals are not modelled. Each call is a logged operation that
  succeeds or fails as the fault schedule says.
  - A successful `f_read` returns `min(4096, bytes left)`, which rules out short reads.
  - A successful `f_write` is taken to write everything. The code ignores `bytes_written` too.
  - `f_size` is the length of the file's contents.
  - Whether `qspi_write_buffer` accepts 4 KiB writes is a property of the driver, which is not
    part of this model.
- Writing to the card is only logged. `f_open` for writing and `f_write` leave the model's map
  of readable files unchanged, so a file `StreamData` receives cannot be read back by
  `flash_from_sd_to_qspi_flash` within the model, and `Accounted` promises nothing about the
  card's contents beyond the logged writes.
- The progress bar captions are labels. `ErrorCode` stands for the text of `srError`, whose
  value is declared in a header that is not part of this model.
- `select_file` and `load_file_list`, as called from `StreamData`, are logged as events. What
  they do to the menu is modelled separately by `Menu.FileMenu`.
- FourCC command codes are modelled by their four characters. The packing of
  `CDCFourCCMake` is declared in a header that is not part of this model.
- Loader.FlashLoader.constructor: the members' initial values are parameters, because they are
  set in the class declaration, which is not part of this model.
- Loader.FlashLoader.StreamData: requires that no byte overruns its buffer, be it the name,
  the length or the data buffer. The firmware does not check this, and what it does after an
  overrun is undefined. The pure model marks the overrun as the outcome `Overrun`.
  `StreamRecord.LongNameOverruns` and `StreamRecord.LongLengthOverruns` show the inputs that
  overrun the name and length buffers. `StreamRecord.FailedFlushOverruns` and
  `StreamRecord.FailedOpenOverruns` show the data buffer overrun after a failed `f_write` or
  `f_open`.
- LocalFlash.FlashFromSdToQspiFlash: sizes are unbounded naturals. FAT file sizes are below
  2^32, so `bytes_total / 65536 + 1` and `bytes_flashed` do not wrap.
- Menu.Modulo: requires `n <= 2^30`, which is what keeps `x % n + n` within `int32_t`. Signed
  overflow beyond that is undefined in C and not modelled.
- Menu.FileMenu.Navigate: requires that the step up or down does not overflow `int32_t`, which
  is the type of `modulo`'s parameter. `persist.selected_menu_item` is declared elsewhere. The
  method uses the corrected `Menu.Wrap` (see Findings).

## Findings

| source | as written | input that shows it | evidently intended | confidence | as-written member | corrected member |
|---|---|---|---|---|---|---|
| firmware/flash-loader/flash-loader.cpp:168-169 | `update` calls `modulo(persist.selected_menu_item, file_count)` with `file_count = files.size()`, which is 0 when the card holds no `.bin` file; `x % 0` is undefined in C | an SD card with no `.bin` file: the first call of `update` divides by zero | an empty menu keeps a fixed selection instead of dividing by zero | medium, not executed | Menu.EmptyListWrapUndefined | Menu.WrapSelects |
