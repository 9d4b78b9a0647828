/** The `FlashLoader` command handler: `StreamInit`, which picks the mode for a command,
    and `StreamData`, which receives a record from the command stream into a file on the
    SD card. The statics of `StreamData` live here as fields, its three buffers as arrays;
    each call is proved to do exactly what `Stream.Feed` says of the same statics, world
    and input. */
module Loader {
  import opened Common
  import opened CText
  import opened Stream
  import opened Devices

  /** `m_state`: stFlashFile, stSaveFile, stFlashCDC, stLS. */
  datatype Mode = FlashFile | SaveFile | FlashCdc | ListFiles

  /** `m_parseState`: stFilename, stLength, stData. */
  datatype ParseState = Filename | LengthField | DataField

  /** The FourCC codes the handler is registered for, as their four characters. */
  const Prog: string := "PROG"
  const Save: string := "SAVE"
  const List: string := "__LS"

  /** The command stream (`CDCDataStream`): the bytes received and not yet taken. */
  class DataStream {
    var pending: seq<byte>

    constructor(bytes: seq<byte>)
      ensures pending == bytes
    {
      pending := bytes;
    }

    /** `stream.Get(byte)`: takes the next byte, or reports that there is none. */
    method Get() returns (ok: bool, b: byte)
      modifies this
      ensures ok == (old(pending) != [])
      ensures ok ==> b == old(pending)[0] && pending == old(pending)[1..]
      ensures !ok ==> pending == old(pending)
    {
      if pending == [] {
        return false, 0;
      }
      ok, b := true, pending[0];
      pending := pending[1..];
    }
  }

  class FlashLoader {
    var mode: Mode
    var parseState: ParseState
    var parseIndex: nat

    // The statics of `StreamData`.
    var stage: Stage
    const nameBuffer: array<byte>
    const lengthBuffer: array<byte>
    const dataBuffer: array<byte>
    var p: Buffer
    var pos: nat
    var bytesTotal: u32
    var bytesRead: u32

    /** The statics as the receive state machine sees them. */
    function Statics(): Session
      reads this, nameBuffer, lengthBuffer, dataBuffer
    {
      Session(stage, nameBuffer[..], lengthBuffer[..], dataBuffer[..], p, pos, bytesTotal, bytesRead)
    }

    /** Three distinct buffers, and statics the state machine accepts. */
    predicate Valid()
      reads this, nameBuffer, lengthBuffer, dataBuffer
    {
      && nameBuffer != lengthBuffer && nameBuffer != dataBuffer && lengthBuffer != dataBuffer
      && Stream.Valid(Statics())
    }

    /** A handler in the given mode whose statics are as at start-up. The initial values of
        the members are set in the class declaration, which is not part of this model. */
    constructor(mode: Mode, parseState: ParseState, parseIndex: nat)
      ensures Valid() && Statics() == Initial()
      ensures fresh(nameBuffer) && fresh(lengthBuffer) && fresh(dataBuffer)
      ensures this.mode == mode && this.parseState == parseState && this.parseIndex == parseIndex
    {
      this.mode, this.parseState, this.parseIndex := mode, parseState, parseIndex;
      stage, p, pos, bytesTotal, bytesRead := Idle, NameBuffer, 0, 0, 0;
      nameBuffer := new byte[NameCapacity](_ => Nul);
      lengthBuffer := new byte[LengthCapacity](_ => Nul);
      dataBuffer := new byte[DataCapacity](_ => Nul);
    }

    /** `StreamInit`: PROG and SAVE prepare to receive a file name, `__LS` asks for the file
        list to be reloaded and needs no stream, and any other command changes nothing and
        still asks for a stream. */
    method StreamInit(command: string) returns (needStream: bool)
      modifies this`mode, this`parseState, this`parseIndex
      ensures needStream <==> command != List
      ensures command == Prog ==> mode == FlashCdc && parseState == Filename && parseIndex == 0
      ensures command == Save ==> mode == SaveFile && parseState == Filename && parseIndex == 0
      ensures command == List ==> mode == ListFiles
                                  && parseState == old(parseState) && parseIndex == old(parseIndex)
      ensures command !in {Prog, Save, List} ==> unchanged(this)
    {
      needStream := true;
      if command == Prog {
        mode, parseState, parseIndex := FlashCdc, Filename, 0;
      } else if command == Save {
        mode, parseState, parseIndex := SaveFile, Filename, 0;
      } else if command == List {
        mode := ListFiles;
        needStream := false;
      }
    }

    /** `*p++ = byte`. */
    method Store(b: byte)
      requires Valid() && pos < Capacity(p)
      modifies this`pos, nameBuffer, lengthBuffer, dataBuffer
      ensures Valid() && Statics() == Put(old(Statics()), [b])
    {
      match p {
        case NameBuffer =>
          SpliceOne(nameBuffer[..], pos, b);
          nameBuffer[pos] := b;
        case LengthBuffer =>
          SpliceOne(lengthBuffer[..], pos, b);
          lengthBuffer[pos] := b;
        case DataBuffer =>
          SpliceOne(dataBuffer[..], pos, b);
          dataBuffer[pos] := b;
      }
      pos := pos + 1;
    }

    /** The LENGTH case of the switch, once the byte is stored. */
    method LengthTurn(b: byte, dev: Peripherals) returns (stop: Outcome)
      requires Valid() && stage == Length
      modifies this`stage, this`p, this`pos, this`bytesTotal, this`bytesRead, dev
      ensures Valid()
      ensures var r := LengthByte(old(Statics()), b, old(dev.World()));
              Statics() == r.s && dev.World() == r.env && stop == r.stop
    {
      if b != Nul {
        return Continue;
      }
      bytesRead := 0;
      bytesTotal := Atol(lengthBuffer[..]);
      p, pos := DataBuffer, 0;
      ghost var env := dev.World();
      var path := CString(nameBuffer[..]);
      var isOpen := dev.OpenForWrite(path);
      if !isOpen {
        dev.ShowProgress(ErrorCode, 1);
        RecordAppend(Consume(env), [OpenForWrite(path, false)], [ProgressShow(ErrorCode, 1)]);
        assert [OpenForWrite(path, false)] + [ProgressShow(ErrorCode, 1)] == [OpenForWrite(path, false), ProgressShow(ErrorCode, 1)];
        return Error;
      }
      stage := Data;
      dev.ShowProgress(CopyingToSd, bytesTotal);
      RecordAppend(Consume(env), [OpenForWrite(path, true)], [ProgressShow(CopyingToSd, bytesTotal)]);
      assert [OpenForWrite(path, true)] + [ProgressShow(CopyingToSd, bytesTotal)] == [OpenForWrite(path, true), ProgressShow(CopyingToSd, bytesTotal)];
      return Continue;
    }

    /** The DATA case of the switch, once the byte is stored. */
    method DataTurn(dev: Peripherals) returns (stop: Outcome)
      requires Valid() && stage == Data && 1 <= pos
      modifies this`stage, this`p, this`pos, this`bytesTotal, this`bytesRead, dev
      ensures Valid()
      ensures var r := DataByte(old(Statics()), old(dev.World()));
              Statics() == r.s && dev.World() == r.env && stop == r.stop
    {
      bytesRead := Inc32(bytesRead);
      if bytesRead != bytesTotal && pos != DataCapacity {
        return Continue;
      }
      var written := FlushData(dev);
      if !written {
        return Error;
      }
      if bytesRead != bytesTotal {
        return Continue;
      }
      CloseRecord(dev);
      return Finish;
    }

    /** `f_write` of what the data buffer holds; on success `p` goes back to its start and
        the progress bar moves to the bytes received so far. */
    method FlushData(dev: Peripherals) returns (ok: bool)
      requires Valid() && stage == Data
      modifies this`p, this`pos, dev
      ensures ok == Succeeds(old(dev.World()))
      ensures ok ==> && Statics() == old(Statics()).(pos := 0)
                     && dev.World() == Record(Consume(old(dev.World())),
                                              [FileWrite(dataBuffer[..old(pos)], true), ProgressUpdate(bytesRead)])
      ensures !ok ==> && Statics() == old(Statics())
                      && dev.World() == Record(Consume(old(dev.World())), [FileWrite(dataBuffer[..pos], false)])
    {
      ghost var env := dev.World();
      ok := dev.Write(dataBuffer, pos);
      if !ok {
        return;
      }
      ghost var chunk := dataBuffer[..pos];
      p, pos := DataBuffer, 0;
      dev.UpdateProgress(bytesRead);
      RecordAppend(Consume(env), [FileWrite(chunk, true)], [ProgressUpdate(bytesRead)]);
    }

    /** The whole record is written: close the file, go back to NONE, hide the progress
        bar, reload the file list and select the new file. */
    method CloseRecord(dev: Peripherals)
      requires Valid() && stage == Data
      modifies this`stage, dev
      ensures Statics() == old(Statics()).(stage := Idle)
      ensures dev.World() == Record(old(dev.World()), Finale(CString(nameBuffer[..])))
    {
      ghost var flushed := dev.World();
      var name := CString(nameBuffer[..]);
      dev.Close();
      stage := Idle;
      dev.HideProgress();
      dev.RefreshList();
      dev.SelectFile(name);
      RecordAppend(flushed, [FileClose], [ProgressHide]);
      RecordAppend(flushed, [FileClose, ProgressHide], [ListRefreshed]);
      RecordAppend(flushed, [FileClose, ProgressHide, ListRefreshed], [FileSelected(name)]);
    }

    /** One turn of the `while(stream.Get(byte))` loop. */
    method Turn(b: byte, dev: Peripherals) returns (stop: Outcome)
      requires Valid() && stage != Idle && pos < Capacity(p)
      modifies this`stage, this`p, this`pos, this`bytesTotal, this`bytesRead
      modifies nameBuffer, lengthBuffer, dataBuffer, dev
      ensures Valid()
      ensures var r := Step(old(Statics()), b, old(dev.World()));
              Statics() == r.s && dev.World() == r.env && stop == r.stop
    {
      Store(b);
      match stage
      case Name =>
        if b == Nul {
          stage, p, pos := Length, LengthBuffer, 0;
        }
        stop := Continue;
      case Length =>
        stop := LengthTurn(b, dev);
      case Data =>
        stop := DataTurn(dev);
    }

    /** One test of the `while(stream.Get(byte))` condition and, when a byte came, the turn
        it gets. A call part way through its loop stays on course for the result `f` of the
        whole call. */
    method NextByte(stream: DataStream, dev: Peripherals, ghost f: Fed, ghost taken: nat)
      returns (more: bool, stop: Outcome)
      requires Valid() && stage != Idle && f.outcome != Overrun
      requires Remaining(Statics(), dev.World(), stream.pending, f, taken)
      modifies this`stage, this`p, this`pos, this`bytesTotal, this`bytesRead
      modifies nameBuffer, lengthBuffer, dataBuffer, stream, dev
      ensures Valid()
      ensures more == (old(stream.pending) != [])
      ensures !more ==> f == Fed(Statics(), dev.World(), Continue, taken) && stream.pending == []
      ensures more ==> stream.pending == old(stream.pending)[1..]
      ensures more && stop != Continue ==> f == Fed(Statics(), dev.World(), stop, taken + 1)
      ensures more && stop == Continue
              ==> stage != Idle && Remaining(Statics(), dev.World(), stream.pending, f, taken + 1)
    {
      ghost var input := stream.pending;
      ghost var s, w := Statics(), dev.World();
      var b;
      more, b := stream.Get();
      if !more {
        RemainingEmpty(s, w, f, taken);
        return false, Continue;
      }
      ghost var st := Step(s, b, w);
      RemainingStep(s, w, input, f, taken, st);
      stop := Turn(b, dev);
    }

    /** `StreamData`: from NONE start a new record, then take bytes until the stream runs
        dry or a byte ends the call. The call does what `Feed` says, including how many
        bytes it takes; the bytes it leaves stay in the stream. The caller guarantees that
        no byte overruns its buffer, which the firmware does not check. */
    method StreamData(stream: DataStream, dev: Peripherals) returns (result: Outcome)
      requires Valid() && Feed(Statics(), dev.World(), stream.pending).outcome != Overrun
      modifies this`stage, this`p, this`pos, this`bytesTotal, this`bytesRead
      modifies nameBuffer, lengthBuffer, dataBuffer, stream, dev
      ensures Valid()
      ensures var f := Feed(old(Statics()), old(dev.World()), old(stream.pending));
              && result == f.outcome && Statics() == f.s && dev.World() == f.env
              && stream.pending == old(stream.pending)[f.consumed..]
    {
      ghost var f := Feed(Statics(), dev.World(), stream.pending);
      RemainingStart(Statics(), dev.World(), stream.pending);
      if stage == Idle {
        stage, p, pos := Name, NameBuffer, 0;
      }
      ghost var taken: nat := 0;
      while true
        invariant Valid() && stage != Idle
        invariant taken <= |old(stream.pending)| && stream.pending == old(stream.pending)[taken..]
        invariant Remaining(Statics(), dev.World(), stream.pending, f, taken)
        decreases |stream.pending|
      {
        var more, stop := NextByte(stream, dev, f, taken);
        if !more {
          return Continue;
        }
        taken := taken + 1;
        if stop != Continue {
          return stop;
        }
      }
    }
  }

  /** Writing one byte over a buffer is updating it at that offset. */
  lemma SpliceOne(buf: seq<byte>, at: nat, x: byte)
    requires at < |buf|
    ensures Splice(buf, at, [x]) == buf[at := x]
  {
  }
}
