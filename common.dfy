/** Types shared by the flash loader model: bytes, 32-bit counters, the record of
    calls made to the foreign collaborators (FatFs, the QSPI driver, the progress
    bar, the file menu) and the fault schedule that decides which of those calls fail. */
module Common {

  type byte = b: int | 0 <= b < 256

  /** The firmware's `UINT` / `uint32_t`. */
  type u32 = x: int | 0 <= x < 0x1_0000_0000

  const U32Modulus: int := 0x1_0000_0000

  /** `x + 1` on a 32-bit unsigned counter, which wraps to 0 past the largest value. */
  function Inc32(x: u32): u32
  {
    if x + 1 == U32Modulus then 0 else x + 1
  }

  /** `Inc32` is the increment modulo 2^32. */
  lemma Inc32Wraps(x: u32)
    ensures Inc32(x) == (x + 1) % U32Modulus
  {
  }

  /** A file name as the firmware sees it: the bytes of a C string, without its terminator. */
  type Path = seq<byte>

  /** The labels the core passes to `progress.show`. `ErrorCode` is the decimal text of
      `srError`, whose numeric value is declared outside this file. */
  datatype Label = ErrorCode | CopyingToSd | ErasingSectors | CopyingToFlash

  /** One call into a collaborator, with the result the collaborator gave. */
  datatype Event =
    | OpenForWrite(path: Path, ok: bool)          // f_open(..., FA_CREATE_ALWAYS | FA_WRITE)
    | OpenForRead(path: Path, ok: bool)           // f_open(..., FA_READ)
    | FileRead(data: seq<byte>, ok: bool)         // f_read
    | FileWrite(data: seq<byte>, ok: bool)        // f_write
    | FileClose                                   // f_close
    | SectorErase(address: nat)                   // qspi_sector_erase
    | FlashWrite(address: nat, data: seq<byte>, ok: bool)  // qspi_write_buffer
    | ProgressShow(caption: Label, total: int)    // progress.show
    | ProgressUpdate(current: int)                // progress.update
    | ProgressHide                                // progress.hide
    | ListRefreshed                               // load_file_list
    | FileSelected(name: Path)                    // select_file

  /** The world outside the core: the files on the SD card that can be read, the fault
      schedule (entry k says whether the k-th fallible call from now on fails; once it is
      exhausted every call succeeds) and the log of every call made so far. */
  datatype Env = Env(files: map<Path, seq<byte>>, faults: seq<bool>, log: seq<Event>)

  /** Whether the next fallible call succeeds. */
  predicate Succeeds(env: Env)
  {
    env.faults == [] || !env.faults[0]
  }

  /** The world after one fallible call has used up its entry of the schedule. */
  function Consume(env: Env): Env
  {
    if env.faults == [] then env else env.(faults := env.faults[1..])
  }

  /** The world after `events` have been made. */
  function Record(env: Env, events: seq<Event>): Env
  {
    env.(log := env.log + events)
  }

  /** Recording `a`, then `b`, is recording `a + b`. */
  lemma RecordAppend(env: Env, a: seq<Event>, b: seq<Event>)
    ensures Record(Record(env, a), b) == Record(env, a + b)
  {
    assert env.log + a + b == env.log + (a + b);
  }

  function Flatten<T>(ss: seq<seq<T>>): seq<T>
  {
    if ss == [] then [] else ss[0] + Flatten(ss[1..])
  }

  function Min(a: int, b: int): (r: int)
    ensures r <= a && r <= b && (r == a || r == b)
  {
    if a <= b then a else b
  }
}
