/** `flash_from_sd_to_qspi_flash`: program the QSPI flash with an image file from the SD
    card. It opens the file, erases every 64 KiB sector the image can reach, from address 0
    upwards, then copies the file in reads of at most 4 KiB, each written at the offset of
    the bytes flashed so far. `Program` states what it does to the world; the method is
    proved to do exactly that, and the lemmas say what `Program` means. */
module LocalFlash {
  import opened Common
  import opened Devices

  /** `qspi_flash_sector_size`. */
  const SectorSize: nat := 0x1_0000
  /** `sizeof(file_buffer)`. */
  const ReadSize: nat := 0x1000

  /** `sector_count`: one sector per started 64 KiB, plus one. */
  function SectorCount(size: nat): nat
  {
    size / SectorSize + 1
  }

  /** The erase loop's calls for sectors `0 .. k - 1`. */
  function EraseLog(k: nat): seq<Event>
  {
    if k == 0 then [] else EraseLog(k - 1) + [SectorErase((k - 1) * SectorSize), ProgressUpdate(k - 1)]
  }

  datatype Programmed = Programmed(ok: bool, env: Env)

  /** The copy loop from `flashed` bytes on, then, once the whole file is flashed, the close
      and the end of the progress bar. */
  function Copy(data: seq<byte>, flashed: nat, env: Env): (r: Programmed)
    requires flashed <= |data|
    ensures |env.log| <= |r.env.log|
    decreases |data| - flashed
  {
    if flashed == |data| then
      Programmed(true, Record(Record(env, [FileClose]), [ProgressHide]))
    else if !Succeeds(env) then
      Programmed(false, Record(Consume(env), [FileRead([], false)]))
    else
      var n := Min(ReadSize, |data| - flashed);
      var chunk := data[flashed..flashed + n];
      var e := Record(Consume(env), [FileRead(chunk, true)]);
      if !Succeeds(e) then
        Programmed(false, Record(Consume(e), [FlashWrite(flashed, chunk, false)]))
      else
        Copy(data, flashed + n, Turned(env, flashed, chunk))
  }

  /** The world after a turn of the copy loop whose read and write succeed: `chunk` read,
      written at `at`, and the progress bar moved on. */
  function Turned(env: Env, at: nat, chunk: seq<byte>): Env
  {
    var e := Record(Consume(env), [FileRead(chunk, true)]);
    Record(Record(Consume(e), [FlashWrite(at, chunk, true)]), [ProgressUpdate(at + |chunk|)])
  }

  /** The whole of `flash_from_sd_to_qspi_flash` for the file `path`. */
  function Program(env: Env, path: Path): (r: Programmed)
    ensures |env.log| < |r.env.log|
  {
    var isOpen := Succeeds(env) && path in env.files;
    var e := Record(Consume(env), [OpenForRead(path, isOpen)]);
    if !isOpen then Programmed(false, e)
    else
      var data := env.files[path];
      var k := SectorCount(|data|);
      var e1 := Record(e, [ProgressShow(ErasingSectors, k)]);
      var e2 := Record(Record(e1, EraseLog(k)), [ProgressShow(CopyingToFlash, |data|)]);
      Copy(data, 0, e2)
  }

  /** `flash_from_sd_to_qspi_flash(filename)`. */
  method FlashFromSdToQspiFlash(dev: Peripherals, path: Path) returns (ok: bool)
    modifies dev
    ensures Programmed(ok, dev.World()) == Program(old(dev.World()), path)
  {
    var fileBuffer := new byte[ReadSize];
    var isOpen, size := dev.OpenForRead(path);
    if !isOpen {
      return false;
    }
    ghost var data := dev.files[path];
    var total := size;
    var sectorCount := total / SectorSize + 1;
    dev.ShowProgress(ErasingSectors, sectorCount);
    EraseSectors(dev, sectorCount);
    dev.ShowProgress(CopyingToFlash, total);
    ok := CopyToFlash(dev, fileBuffer, data, total);
  }

  /** The erase loop: sectors `0 .. count - 1`, in ascending order. */
  method EraseSectors(dev: Peripherals, count: nat)
    modifies dev
    ensures dev.World() == Record(old(dev.World()), EraseLog(count)) && dev.unread == old(dev.unread)
  {
    ghost var env := dev.World();
    assert env == Record(env, EraseLog(0));
    var sector := 0;
    while sector < count
      invariant sector <= count
      invariant dev.World() == Record(env, EraseLog(sector)) && dev.unread == old(dev.unread)
    {
      dev.EraseSector(sector * SectorSize);
      dev.UpdateProgress(sector);
      EraseStep(env, sector);
      sector := sector + 1;
    }
  }

  /** The copy loop: read up to 4 KiB, write it at the offset reached, until `total` bytes
      are flashed; then close the file and hide the progress bar. */
  method CopyToFlash(dev: Peripherals, fileBuffer: array<byte>, ghost data: seq<byte>, total: nat)
    returns (ok: bool)
    requires fileBuffer.Length == ReadSize && total == |data| && dev.unread == data
    modifies dev, fileBuffer
    ensures Programmed(ok, dev.World()) == Copy(data, 0, old(dev.World()))
  {
    var flashed := 0;
    while flashed < total
      invariant flashed <= total && dev.unread == data[flashed..]
      invariant Copy(data, flashed, dev.World()) == Copy(data, 0, old(dev.World()))
      decreases total - flashed
    {
      ghost var env := dev.World();
      var readOk, count := dev.Read(fileBuffer);
      if !readOk {
        return false;
      }
      ghost var chunk := data[flashed..flashed + count];
      assert data[flashed..][..count] == chunk;
      assert fileBuffer[..count] == chunk;
      CopyStep(data, flashed, env, count, chunk);
      var written := dev.WriteFlash(flashed, fileBuffer, count);
      if !written {
        return false;
      }
      flashed := flashed + count;
      dev.UpdateProgress(flashed);
    }
    dev.Close();
    dev.HideProgress();
    return true;
  }

  /** One turn of the copy loop, once the read has succeeded. */
  lemma CopyStep(data: seq<byte>, flashed: nat, env: Env, n: nat, chunk: seq<byte>)
    requires flashed < |data| && Succeeds(env)
    requires n == Min(ReadSize, |data| - flashed) && chunk == data[flashed..flashed + n]
    ensures var e := Record(Consume(env), [FileRead(chunk, true)]);
            Copy(data, flashed, env)
            == if Succeeds(e) then Copy(data, flashed + n, Turned(env, flashed, chunk))
               else Programmed(false, Record(Consume(e), [FlashWrite(flashed, chunk, false)]))
  {
  }

  /** One more turn of the erase loop. */
  lemma EraseStep(env: Env, k: nat)
    ensures Record(Record(Record(env, EraseLog(k)), [SectorErase(k * SectorSize)]), [ProgressUpdate(k)])
            == Record(env, EraseLog(k + 1))
  {
    assert env.log + EraseLog(k) + [SectorErase(k * SectorSize)] + [ProgressUpdate(k)]
           == env.log + EraseLog(k + 1);
  }

  /** The sectors erased reach past the end of the image, and only the last of them may
      lie wholly beyond it (it always does when the size is a multiple of 64 KiB). */
  lemma SectorCountCovers(size: nat)
    ensures size < SectorCount(size) * SectorSize
    ensures (SectorCount(size) - 1) * SectorSize <= size
    ensures size % SectorSize == 0 ==> (SectorCount(size) - 1) * SectorSize == size
  {
  }

  /** The erase loop erases sector k at address k * 64 KiB and reports k, for k = 0, 1, ...
      in ascending order. */
  lemma {:induction false} EraseLogShape(k: nat)
    ensures |EraseLog(k)| == 2 * k
    ensures forall i :: 0 <= i < k ==> EraseLog(k)[2 * i] == SectorErase(i * SectorSize)
    ensures forall i :: 0 <= i < k ==> EraseLog(k)[2 * i + 1] == ProgressUpdate(i)
  {
    if k > 0 {
      EraseLogShape(k - 1);
    }
  }

  /** The bytes a call puts in the flash: those of a successful flash write. */
  function Carried(e: Event): seq<byte>
  {
    if e.FlashWrite? && e.ok then e.data else []
  }

  /** The bytes the successful flash writes of `events` carry, in order. */
  function Image(events: seq<Event>): seq<byte>
  {
    if events == [] then [] else Carried(events[0]) + Image(events[1..])
  }

  /** Every flash write of `events` is at the offset reached by the successful writes
      before it, starting at `at`. */
  predicate LaidFrom(events: seq<Event>, at: nat)
  {
    if events == [] then true
    else
      && (events[0].FlashWrite? ==> events[0].address == at)
      && LaidFrom(events[1..], at + |Carried(events[0])|)
  }

  lemma {:induction false} ImageAppend(a: seq<Event>, b: seq<Event>)
    ensures Image(a + b) == Image(a) + Image(b)
  {
    if a != [] {
      assert (a + b)[0] == a[0];
      assert (a + b)[1..] == a[1..] + b;
      ImageAppend(a[1..], b);
    } else {
      assert a + b == b;
    }
  }

  lemma {:induction false} LaidFromAppend(a: seq<Event>, b: seq<Event>, at: nat)
    ensures LaidFrom(a + b, at) == (LaidFrom(a, at) && LaidFrom(b, at + |Image(a)|))
  {
    if a != [] {
      assert (a + b)[0] == a[0];
      assert (a + b)[1..] == a[1..] + b;
      LaidFromAppend(a[1..], b, at + |Carried(a[0])|);
    } else {
      assert a + b == b;
    }
  }

  /** Calls that write nothing to the flash. */
  predicate NoFlashWrite(events: seq<Event>)
  {
    forall i :: 0 <= i < |events| ==> !events[i].FlashWrite?
  }

  lemma {:induction false} ImageOfNoFlashWrite(events: seq<Event>, at: nat)
    requires NoFlashWrite(events)
    ensures Image(events) == [] && LaidFrom(events, at)
  {
    if events != [] {
      assert !events[0].FlashWrite?;
      ImageOfNoFlashWrite(events[1..], at);
    }
  }

  /** A fallible call that failed: the open, a read or a flash write. */
  predicate Failed(e: Event)
  {
    (e.OpenForRead? || e.FileRead? || e.FlashWrite?) && !e.ok
  }

  /** No call of `events` failed. */
  predicate NoFailure(events: seq<Event>)
  {
    forall e :: e in events ==> !Failed(e)
  }

  /** Every flash write of `events` carries between 1 byte and one read's worth. */
  predicate FlashWritesBounded(events: seq<Event>)
  {
    forall e :: e in events && e.FlashWrite? ==> 1 <= |e.data| <= ReadSize
  }

  /** A run of calls that returns `ok` exactly when none of them failed, and otherwise
      ends with the one call that failed. */
  predicate Stopped(events: seq<Event>, ok: bool)
  {
    && (ok <==> NoFailure(events))
    && (!ok ==> |events| >= 1 && Failed(events[|events| - 1]) && NoFailure(events[..|events| - 1]))
  }

  /** What the copy loop leaves in the log from offset `at` on, towards the bytes `rest`:
      every flash write at the offset it belongs at and no erase; on success the flash
      holds exactly `rest` and the file is closed last; on failure it holds a prefix of
      `rest` and the file is never closed. */
  predicate Copied(events: seq<Event>, at: nat, rest: seq<byte>, ok: bool)
  {
    && LaidFrom(events, at)
    && (forall i :: 0 <= i < |events| ==> !events[i].SectorErase?)
    && (ok ==> Image(events) == rest && |events| >= 2 && events[|events| - 2..] == [FileClose, ProgressHide])
    && (!ok ==> FileClose !in events && Image(events) <= rest)
  }

  /** The copy loop from any offset stops at its first failed read or flash write and
      returns false for it, returns true when none fails, and each flash write carries
      one read of 1 to 4096 bytes. */
  lemma {:induction false} CopyStops(data: seq<byte>, flashed: nat, env: Env)
    requires flashed <= |data|
    ensures var r := Copy(data, flashed, env); StoppedFrom(env, r.env, r.ok)
    decreases |data| - flashed
  {
    var r := Copy(data, flashed, env);
    if flashed == |data| || !Succeeds(env) {
      StopsAtOnce(data, flashed, env);
    } else {
      var n := Min(ReadSize, |data| - flashed);
      var chunk := data[flashed..flashed + n];
      var e := Record(Consume(env), [FileRead(chunk, true)]);
      if !Succeeds(e) {
        StopsAtWrite(data, flashed, env);
      } else {
        var next := Turned(env, flashed, chunk);
        assert Copy(data, flashed, env) == Copy(data, flashed + n, next) by {
          CopyStep(data, flashed, env, n, chunk);
        }
        CopyStops(data, flashed + n, next);
        StopsTurn(env, r.env, flashed, chunk, r.ok);
      }
    }
  }

  /** The log from world `before` to world `after` is a run that `Stopped` with `ok`, each
      flash write of it bounded. */
  predicate StoppedFrom(before: Env, after: Env, ok: bool)
  {
    before.log <= after.log
    && Stopped(after.log[|before.log|..], ok) && FlashWritesBounded(after.log[|before.log|..])
  }

  /** A successful turn of the copy loop before what the rest of the loop leaves. */
  lemma StopsTurn(env: Env, after: Env, at: nat, chunk: seq<byte>, ok: bool)
    requires 1 <= |chunk| <= ReadSize
    requires StoppedFrom(Turned(env, at, chunk), after, ok)
    ensures StoppedFrom(env, after, ok)
  {
    var head := [FileRead(chunk, true), FlashWrite(at, chunk, true), ProgressUpdate(at + |chunk|)];
    TurnLog(env, head[0], head[1], head[2]);
    TailAfter(env.log, head, Turned(env, at, chunk).log, after.log);
    StoppedPrepend(head, after.log[|Turned(env, at, chunk).log|..], ok);
  }

  /** `CopyStops` when nothing is left to copy or the read fails. */
  lemma StopsAtOnce(data: seq<byte>, flashed: nat, env: Env)
    requires flashed <= |data| && (flashed == |data| || !Succeeds(env))
    ensures var r := Copy(data, flashed, env); StoppedFrom(env, r.env, r.ok)
  {
    var r := Copy(data, flashed, env);
    var events := r.env.log[|env.log|..];
    if flashed == |data| {
      assert events == [FileClose, ProgressHide];
    } else {
      assert events == [FileRead([], false)];
      assert Failed(events[0]);
    }
  }

  /** `CopyStops` when the read succeeds and the flash write fails. */
  lemma StopsAtWrite(data: seq<byte>, flashed: nat, env: Env)
    requires flashed < |data| && Succeeds(env)
    requires var chunk := data[flashed..flashed + Min(ReadSize, |data| - flashed)];
             !Succeeds(Record(Consume(env), [FileRead(chunk, true)]))
    ensures var r := Copy(data, flashed, env); StoppedFrom(env, r.env, r.ok)
  {
    var chunk := data[flashed..flashed + Min(ReadSize, |data| - flashed)];
    var r := Copy(data, flashed, env);
    var events := r.env.log[|env.log|..];
    assert events == [FileRead(chunk, true), FlashWrite(flashed, chunk, false)];
    assert Failed(events[1]);
    assert events[..|events| - 1] == [FileRead(chunk, true)];
  }

  /** Calls that did not fail, each flash write of them bounded, before a run that
      `Stopped`. */
  lemma StoppedPrepend(head: seq<Event>, tail: seq<Event>, ok: bool)
    requires NoFailure(head) && FlashWritesBounded(head)
    requires Stopped(tail, ok) && FlashWritesBounded(tail)
    ensures Stopped(head + tail, ok) && FlashWritesBounded(head + tail)
  {
    if !ok {
      PrependFailure(head, tail);
    }
  }

  /** From `flashed` bytes on, the copy loop writes the rest of the file to the flash at
      the offsets it belongs at, and erases nothing. On success it closes the file last;
      on failure it never closes it, and the flash holds a prefix of the rest. */
  lemma {:induction false} CopyFlashes(data: seq<byte>, flashed: nat, env: Env)
    requires flashed <= |data|
    ensures var r := Copy(data, flashed, env); Kept(env, r.env, flashed, data[flashed..], r.ok)
    decreases |data| - flashed
  {
    if flashed == |data| || !Succeeds(env) {
      CopyEnds(data, flashed, env);
    } else {
      var n := Min(ReadSize, |data| - flashed);
      var chunk := data[flashed..flashed + n];
      var e := Record(Consume(env), [FileRead(chunk, true)]);
      if !Succeeds(e) {
        CopyWriteFails(data, flashed, env);
      } else {
        var next := Turned(env, flashed, chunk);
        var r := Copy(data, flashed + n, next);
        assert Copy(data, flashed, env) == r by {
          CopyStep(data, flashed, env, n, chunk);
        }
        CopyFlashes(data, flashed + n, next);
        CopyTurnLog(env, r.env, data, flashed, chunk, r.ok);
      }
    }
  }

  /** The log from world `before` to world `after` is what the copy loop leaves from offset
      `at` towards the bytes `rest`, and the files are untouched. */
  predicate Kept(before: Env, after: Env, at: nat, rest: seq<byte>, ok: bool)
  {
    before.log <= after.log && after.files == before.files
    && Copied(after.log[|before.log|..], at, rest, ok)
  }

  /** A successful turn of the copy loop before what the rest of the loop leaves, up to
      world `after`. */
  lemma CopyTurnLog(env: Env, after: Env, data: seq<byte>, at: nat, chunk: seq<byte>, ok: bool)
    requires at + |chunk| <= |data| && chunk == data[at..at + |chunk|]
    requires Kept(Turned(env, at, chunk), after, at + |chunk|, data[at + |chunk|..], ok)
    ensures Kept(env, after, at, data[at..], ok)
  {
    var head := [FileRead(chunk, true), FlashWrite(at, chunk, true), ProgressUpdate(at + |chunk|)];
    TurnLog(env, head[0], head[1], head[2]);
    SliceSplit(data, at, at + |chunk|);
    CopyGoesOn(env.log, head, after.log, chunk, at, data[at + |chunk|..], ok);
  }

  /** A suffix is its first piece followed by the rest. */
  lemma SliceSplit(data: seq<byte>, i: nat, j: nat)
    requires i <= j <= |data|
    ensures data[i..] == data[i..j] + data[j..]
  {
  }

  /** The copy loop when it has nothing left to copy or its read fails. */
  lemma CopyEnds(data: seq<byte>, flashed: nat, env: Env)
    requires flashed <= |data| && (flashed == |data| || !Succeeds(env))
    ensures var r := Copy(data, flashed, env); Kept(env, r.env, flashed, data[flashed..], r.ok)
  {
    var r := Copy(data, flashed, env);
    var events := r.env.log[|env.log|..];
    if flashed == |data| {
      assert events == [FileClose, ProgressHide];
    } else {
      assert events == [FileRead([], false)];
    }
    ImageOfNoFlashWrite(events, flashed);
  }

  /** The copy loop when the read succeeds and the flash write fails. */
  lemma CopyWriteFails(data: seq<byte>, flashed: nat, env: Env)
    requires flashed < |data| && Succeeds(env)
    requires var chunk := data[flashed..flashed + Min(ReadSize, |data| - flashed)];
             !Succeeds(Record(Consume(env), [FileRead(chunk, true)]))
    ensures var r := Copy(data, flashed, env); Kept(env, r.env, flashed, data[flashed..], r.ok)
  {
    var chunk := data[flashed..flashed + Min(ReadSize, |data| - flashed)];
    var r := Copy(data, flashed, env);
    var write := FlashWrite(flashed, chunk, false);
    assert r.env.log[|env.log|..] == [FileRead(chunk, true)] + [write];
    Pair(FileRead(chunk, true), write, flashed);
  }

  /** A successful turn of the copy loop, `head`, before the log the rest of the loop leaves. */
  lemma CopyGoesOn(before: seq<Event>, head: seq<Event>, after: seq<Event>,
                   chunk: seq<byte>, at: nat, rest: seq<byte>, ok: bool)
    requires head == [FileRead(chunk, true), FlashWrite(at, chunk, true), ProgressUpdate(at + |chunk|)]
    requires before + head <= after && Copied(after[|before + head|..], at + |chunk|, rest, ok)
    ensures before <= after && Copied(after[|before|..], at, chunk + rest, ok)
  {
    var tail := after[|before + head|..];
    assert after[|before|..] == head + tail;
    CopiedPrepend(chunk, at, at + |chunk|, tail, rest, ok);
  }

  /** The world after a read and a flash write, both fallible, and a progress update. */
  lemma TurnLog(env: Env, a: Event, b: Event, c: Event)
    ensures var next := Record(Record(Consume(Record(Consume(env), [a])), [b]), [c]);
            next.log == env.log + [a, b, c] && next.files == env.files
  {
    assert env.log + [a] + [b] + [c] == env.log + [a, b, c];
  }

  /** The two calls of a turn of the copy loop whose write fails. */
  lemma Pair(a: Event, b: Event, at: nat)
    requires !a.FlashWrite? && b.FlashWrite? && !b.ok && b.address == at
    ensures Image([a] + [b]) == [] && LaidFrom([a] + [b], at)
  {
    ImageOfNoFlashWrite([a], at);
    LaidFromAppend([a], [b], at);
    ImageAppend([a], [b]);
    assert [b][1..] == [];
  }

  /** The three calls of a turn of the copy loop whose write succeeds. */
  lemma Triple(chunk: seq<byte>, at: nat, next: nat)
    ensures var head := [FileRead(chunk, true), FlashWrite(at, chunk, true), ProgressUpdate(next)];
            Image(head) == chunk && LaidFrom(head, at)
  {
    var last := [ProgressUpdate(next)];
    var write := [FlashWrite(at, chunk, true)];
    ImageOfNoFlashWrite(last, at + |chunk|);
    ImageOfNoFlashWrite([FileRead(chunk, true)], at);
    assert LaidFrom(write, at) && Image(write) == chunk by {
      assert write[1..] == [];
    }
    ImageAppend(write, last);
    LaidFromAppend(write, last, at);
    ImageAppend([FileRead(chunk, true)], write + last);
    LaidFromAppend([FileRead(chunk, true)], write + last, at);
    assert [FileRead(chunk, true)] + (write + last)
           == [FileRead(chunk, true), FlashWrite(at, chunk, true), ProgressUpdate(next)];
  }

  /** A turn of the copy loop whose write succeeds, before the rest of the loop. */
  lemma CopiedPrepend(chunk: seq<byte>, at: nat, next: nat, tail: seq<Event>, rest: seq<byte>, ok: bool)
    requires next == at + |chunk| && Copied(tail, next, rest, ok)
    ensures Copied([FileRead(chunk, true), FlashWrite(at, chunk, true), ProgressUpdate(next)] + tail,
                   at, chunk + rest, ok)
  {
    var head := [FileRead(chunk, true), FlashWrite(at, chunk, true), ProgressUpdate(next)];
    var events := head + tail;
    Triple(chunk, at, next);
    ImageAppend(head, tail);
    LaidFromAppend(head, tail, at);
    assert LaidFrom(events, at);
    forall i | 0 <= i < |events|
      ensures !events[i].SectorErase?
    {
      if i >= 3 {
        assert events[i] == tail[i - 3];
      }
    }
    if ok {
      assert Image(events) == chunk + rest;
      assert events[|events| - 2..] == tail[|tail| - 2..];
    } else {
      assert FileClose !in head;
      PrependPrefix(chunk, Image(tail), rest);
    }
  }

  /** Calls that did not fail, before calls that end with the only failure, keep it last
      and the only one. */
  lemma PrependFailure(head: seq<Event>, tail: seq<Event>)
    requires NoFailure(head) && |tail| >= 1 && NoFailure(tail[..|tail| - 1])
    ensures var events := head + tail;
            events[|events| - 1] == tail[|tail| - 1] && NoFailure(events[..|events| - 1])
  {
    var events := head + tail;
    assert events[..|events| - 1] == head + tail[..|tail| - 1];
  }

  /** The same bytes before a prefix and before the whole keep it a prefix. */
  lemma PrependPrefix(c: seq<byte>, a: seq<byte>, b: seq<byte>)
    requires a <= b
    ensures c + a <= c + b
  {
    assert (c + b)[..|c + a|] == c + a;
  }

  /** The calls before the copy loop once the file is open: the erase of every sector,
      framed by the two captions of the progress bar. */
  function Preamble(path: Path, size: nat): seq<Event>
  {
    var k := SectorCount(size);
    [OpenForRead(path, true), ProgressShow(ErasingSectors, k)] + EraseLog(k) + [ProgressShow(CopyingToFlash, size)]
  }

  lemma {:induction false} EraseLogNoFlashWrite(k: nat)
    ensures NoFlashWrite(EraseLog(k)) && NoFailure(EraseLog(k))
  {
    if k > 0 {
      EraseLogNoFlashWrite(k - 1);
    }
  }

  /** What `flash_from_sd_to_qspi_flash` does. A file that cannot be opened makes it
      return false having done nothing else. Otherwise it erases sectors 0 .. size / 64 KiB
      and only then copies; it returns true exactly when every open, read and write
      succeeded, and then the flash writes lay the whole file from address 0, in order,
      and the file is closed; when it returns false it stopped at the first failed call,
      the flash holds a prefix of the file and the file is left open. The files on the
      card are untouched either way. */
  lemma ProgramFlashes(env: Env, path: Path)
    ensures var r := Program(env, path); var events := r.env.log[|env.log|..];
            && env.log <= r.env.log && r.env.files == env.files
            && |events| >= 1 && events[0] == OpenForRead(path, Succeeds(env) && path in env.files)
            && Stopped(events, r.ok) && FlashWritesBounded(events)
            && (!(Succeeds(env) && path in env.files) ==> !r.ok && events == [OpenForRead(path, false)])
            && (Succeeds(env) && path in env.files ==>
                  var data := env.files[path]; var pre := Preamble(path, |data|);
                  && pre <= events
                  && Copied(events[|pre|..], 0, data, r.ok)
                  && Flashed(events, data, r.ok))
  {
    if Succeeds(env) && path in env.files {
      ProgramCopies(env, path);
    } else {
      var events := Program(env, path).env.log[|env.log|..];
      assert events == [OpenForRead(path, false)];
      assert Failed(events[0]);
    }
  }

  /** The flash writes of `events` lay `data` from address 0 in order: all of it when `ok`,
      a prefix of it otherwise. */
  predicate Flashed(events: seq<Event>, data: seq<byte>, ok: bool)
  {
    && LaidFrom(events, 0)
    && (ok ==> Image(events) == data)
    && (!ok ==> Image(events) <= data)
  }

  /** `ProgramFlashes` once the file is open. */
  lemma ProgramCopies(env: Env, path: Path)
    requires Succeeds(env) && path in env.files
    ensures var r := Program(env, path); var events := r.env.log[|env.log|..];
            var data := env.files[path]; var pre := Preamble(path, |data|);
            && env.log <= r.env.log && r.env.files == env.files
            && pre <= events
            && Copied(events[|pre|..], 0, data, r.ok)
            && Flashed(events, data, r.ok) && Stopped(events, r.ok) && FlashWritesBounded(events)
  {
    var r := Program(env, path);
    var data := env.files[path];
    var pre := Preamble(path, |data|);
    var e2 := Record(Consume(env), pre);
    ProgramLays(env, path);
    ProgramOpened(env, path);
    CopyStops(data, 0, e2);
    TailAfter(env.log, pre, e2.log, r.env.log);
    PreambleNoFlashWrite(path, |data|);
    Prefixed(pre, r.env.log[|e2.log|..], data, r.ok);
    StoppedPrepend(pre, r.env.log[|e2.log|..], r.ok);
  }

  /** Once the file is open, the preamble comes first and the copy loop follows it. */
  lemma ProgramLays(env: Env, path: Path)
    requires Succeeds(env) && path in env.files
    ensures var r := Program(env, path); var events := r.env.log[|env.log|..];
            var data := env.files[path]; var pre := Preamble(path, |data|);
            && env.log <= r.env.log && r.env.files == env.files
            && pre <= events && events[|pre|..] == r.env.log[|env.log| + |pre|..]
            && Copied(events[|pre|..], 0, data, r.ok)
  {
    var r := Program(env, path);
    var data := env.files[path];
    var pre := Preamble(path, |data|);
    var e2 := Record(Consume(env), pre);
    ProgramOpened(env, path);
    CopyFlashes(data, 0, e2);
    TailAfter(env.log, pre, e2.log, r.env.log);
    SliceSplit(data, 0, 0);
  }

  /** A log that extends `mid`, which is `before + pre`, is `before`, then `pre`, then what
      follows. */
  lemma TailAfter(before: seq<Event>, pre: seq<Event>, mid: seq<Event>, after: seq<Event>)
    requires mid == before + pre && mid <= after
    ensures before <= after && after[|before|..] == pre + after[|mid|..]
  {
  }

  /** Calls that write nothing to the flash, before a copy loop from offset 0. */
  lemma Prefixed(pre: seq<Event>, copied: seq<Event>, data: seq<byte>, ok: bool)
    requires NoFlashWrite(pre) && Copied(copied, 0, data, ok)
    ensures Flashed(pre + copied, data, ok)
  {
    ImageOfNoFlashWrite(pre, 0);
    ImageAppend(pre, copied);
    LaidFromAppend(pre, copied, 0);
  }

  /** With no fault at all, programming a file that is on the card succeeds. */
  lemma ProgramSucceeds(env: Env, path: Path)
    requires env.faults == [] && path in env.files
    ensures Program(env, path).ok
  {
    var data := env.files[path];
    ProgramOpened(env, path);
    CopySucceeds(data, 0, Record(Consume(env), Preamble(path, |data|)));
  }

  /** With no fault at all, the copy loop runs to the end of the file. */
  lemma {:induction false} CopySucceeds(data: seq<byte>, flashed: nat, env: Env)
    requires flashed <= |data| && env.faults == []
    ensures Copy(data, flashed, env).ok
    decreases |data| - flashed
  {
    if flashed < |data| {
      var n := Min(ReadSize, |data| - flashed);
      var chunk := data[flashed..flashed + n];
      CopyStep(data, flashed, env, n, chunk);
      CopySucceeds(data, flashed + n, Turned(env, flashed, chunk));
    }
  }

  /** Once the file is open, the copy loop starts after the preamble. */
  lemma ProgramOpened(env: Env, path: Path)
    requires Succeeds(env) && path in env.files
    ensures Program(env, path) == Copy(env.files[path], 0, Record(Consume(env), Preamble(path, |env.files[path]|)))
  {
    PreambleLog(Consume(env), path, |env.files[path]|);
  }

  /** The calls before the copy loop, one after the other, make up `Preamble`. */
  lemma PreambleLog(e: Env, path: Path, size: nat)
    ensures var k := SectorCount(size);
            Record(Record(Record(Record(e, [OpenForRead(path, true)]), [ProgressShow(ErasingSectors, k)]),
                          EraseLog(k)), [ProgressShow(CopyingToFlash, size)])
            == Record(e, Preamble(path, size))
  {
    var k := SectorCount(size);
    assert e.log + [OpenForRead(path, true)] + [ProgressShow(ErasingSectors, k)] + EraseLog(k)
             + [ProgressShow(CopyingToFlash, size)]
           == e.log + Preamble(path, size);
  }

  lemma PreambleNoFlashWrite(path: Path, size: nat)
    ensures NoFlashWrite(Preamble(path, size)) && NoFailure(Preamble(path, size))
    ensures FlashWritesBounded(Preamble(path, size))
  {
    var k := SectorCount(size);
    var pre := Preamble(path, size);
    EraseLogNoFlashWrite(k);
    forall i | 0 <= i < |pre|
      ensures !pre[i].FlashWrite?
    {
      if 2 <= i < 2 + |EraseLog(k)| {
        assert pre[i] == EraseLog(k)[i - 2];
      }
    }
  }

  /** No sector is erased after the first flash write. */
  lemma ErasesBeforeWrites(env: Env, path: Path)
    ensures var r := Program(env, path); var events := r.env.log[|env.log|..];
            forall i, j :: 0 <= i < j < |events| && events[i].FlashWrite? ==> !events[j].SectorErase?
  {
    var r := Program(env, path);
    var events := r.env.log[|env.log|..];
    if !(Succeeds(env) && path in env.files) {
      assert events == [OpenForRead(path, false)];
    } else {
      var data := env.files[path];
      var pre := Preamble(path, |data|);
      PreambleNoFlashWrite(path, |data|);
      assert pre <= events && Copied(events[|pre|..], 0, data, r.ok) by {
        ProgramLays(env, path);
      }
      var copied := events[|pre|..];
      forall i, j | 0 <= i < j < |events| && events[i].FlashWrite?
        ensures !events[j].SectorErase?
      {
        assert events[j] == copied[j - |pre|];
      }
    }
  }
}
