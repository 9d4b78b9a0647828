/** The collaborators the core calls and cannot see into: FatFs on the SD card, the QSPI
    flash driver, the progress bar and the file menu. Each call is recorded in the log with
    the result it gave; the calls that can fail (`f_open`, `f_read`, `f_write`,
    `qspi_write_buffer`) take their result from the fault schedule. */
module Devices {
  import opened Common

  class Peripherals {
    /** The files on the SD card that can be opened for reading, by name. */
    var files: map<Path, seq<byte>>
    /** The fault schedule: entry k decides whether the k-th fallible call from now fails. */
    var faults: seq<bool>
    /** Every call made so far, in order. */
    var log: seq<Event>
    /** The bytes of the file open for reading that have not been read yet. */
    var unread: seq<byte>

    function World(): Env
      reads this
    {
      Env(files, faults, log)
    }

    constructor(env: Env)
      ensures World() == env && unread == []
    {
      files, faults, log, unread := env.files, env.faults, env.log, [];
    }

    /** `f_open(..., FA_CREATE_ALWAYS | FA_WRITE)`. */
    method OpenForWrite(path: Path) returns (ok: bool)
      modifies this
      ensures ok == Succeeds(old(World()))
      ensures World() == Record(Consume(old(World())), [Event.OpenForWrite(path, ok)])
      ensures unread == old(unread)
    {
      ok := faults == [] || !faults[0];
      if faults != [] {
        faults := faults[1..];
      }
      log := log + [Event.OpenForWrite(path, ok)];
    }

    /** `f_write` of the first `count` bytes of `buf`. */
    method Write(buf: array<byte>, count: nat) returns (ok: bool)
      requires count <= buf.Length
      modifies this
      ensures ok == Succeeds(old(World()))
      ensures World() == Record(Consume(old(World())), [FileWrite(buf[..count], ok)])
      ensures unread == old(unread)
    {
      ok := faults == [] || !faults[0];
      if faults != [] {
        faults := faults[1..];
      }
      log := log + [FileWrite(buf[..count], ok)];
    }

    /** `f_open(..., FA_READ)`: fails when the schedule says so or when there is no such
        file; otherwise the whole file is left to read and its size is returned. */
    method OpenForRead(path: Path) returns (ok: bool, size: nat)
      modifies this
      ensures ok == (Succeeds(old(World())) && path in files)
      ensures World() == Record(Consume(old(World())), [Event.OpenForRead(path, ok)])
      ensures ok ==> unread == files[path] && size == |files[path]|
    {
      ok := (faults == [] || !faults[0]) && path in files;
      if faults != [] {
        faults := faults[1..];
      }
      log := log + [Event.OpenForRead(path, ok)];
      size := 0;
      if ok {
        unread, size := files[path], |files[path]|;
      }
    }

    /** `f_read` of up to `buf.Length` bytes from the open file into `buf`. */
    method Read(buf: array<byte>) returns (ok: bool, count: nat)
      modifies this, buf
      ensures ok == Succeeds(old(World()))
      ensures ok ==> && count == Min(buf.Length, |old(unread)|)
                     && buf[..count] == old(unread)[..count] && unread == old(unread)[count..]
                     && World() == Record(Consume(old(World())), [FileRead(old(unread)[..count], true)])
      ensures !ok ==> && count == 0 && unread == old(unread)
                      && World() == Record(Consume(old(World())), [FileRead([], false)])
    {
      ok := faults == [] || !faults[0];
      if faults != [] {
        faults := faults[1..];
      }
      count := 0;
      if !ok {
        log := log + [FileRead([], false)];
        return;
      }
      var data := unread;
      var n := Min(buf.Length, |data|);
      for i := 0 to n
        modifies buf
        invariant buf[..i] == data[..i]
      {
        buf[i] := data[i];
      }
      count := n;
      log := log + [FileRead(data[..n], true)];
      unread := data[n..];
    }

    /** `f_close`. */
    method Close()
      modifies this
      ensures World() == Record(old(World()), [FileClose]) && unread == old(unread)
    {
      log := log + [FileClose];
    }

    /** `qspi_sector_erase`; its result is not looked at. */
    method EraseSector(address: nat)
      modifies this
      ensures World() == Record(old(World()), [SectorErase(address)]) && unread == old(unread)
    {
      log := log + [SectorErase(address)];
    }

    /** `qspi_write_buffer` of the first `count` bytes of `buf` at `address`. */
    method WriteFlash(address: nat, buf: array<byte>, count: nat) returns (ok: bool)
      requires count <= buf.Length
      modifies this
      ensures ok == Succeeds(old(World()))
      ensures World() == Record(Consume(old(World())), [FlashWrite(address, buf[..count], ok)])
      ensures unread == old(unread)
    {
      ok := faults == [] || !faults[0];
      if faults != [] {
        faults := faults[1..];
      }
      log := log + [FlashWrite(address, buf[..count], ok)];
    }

    /** `progress.show`. */
    method ShowProgress(caption: Label, total: int)
      modifies this
      ensures World() == Record(old(World()), [ProgressShow(caption, total)]) && unread == old(unread)
    {
      log := log + [ProgressShow(caption, total)];
    }

    /** `progress.update`. */
    method UpdateProgress(current: int)
      modifies this
      ensures World() == Record(old(World()), [ProgressUpdate(current)]) && unread == old(unread)
    {
      log := log + [ProgressUpdate(current)];
    }

    /** `progress.hide`. */
    method HideProgress()
      modifies this
      ensures World() == Record(old(World()), [ProgressHide]) && unread == old(unread)
    {
      log := log + [ProgressHide];
    }

    /** `load_file_list`, as the receive path calls it; what it does to the menu is
        modelled by `Menu.FileMenu.LoadFileList`. */
    method RefreshList()
      modifies this
      ensures World() == Record(old(World()), [ListRefreshed]) && unread == old(unread)
    {
      log := log + [ListRefreshed];
    }

    /** `select_file`, as the receive path calls it; what it does to the menu is modelled
        by `Menu.FileMenu.SelectFile`. */
    method SelectFile(name: Path)
      modifies this
      ensures World() == Record(old(World()), [FileSelected(name)]) && unread == old(unread)
    {
      log := log + [FileSelected(name)];
    }
  }
}
