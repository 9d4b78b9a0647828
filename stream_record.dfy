/** What `StreamData` does with a well-formed record, `<name> 0x00 <decimal length> 0x00
    <payload>`, and with the records that are not: a zero length, a field with no
    terminator in reach, and what a failed `f_open` or `f_write` leaves for the next call. */
module StreamRecord {
  import opened Common
  import opened CText
  import opened Stream

  /** The two header fields of a record declaring `n` payload bytes. */
  function Header(name: Path, n: nat): seq<byte>
  {
    name + [Nul] + Decimal(n) + [Nul]
  }

  /** A whole record. */
  function RecordBytes(name: Path, payload: seq<byte>): seq<byte>
  {
    Header(name, |payload|) + payload
  }

  /** The payload cut into the pieces the flushes write: 256 bytes each, the last one
      possibly shorter. Together they are the payload, in order. */
  function Chunks(payload: seq<byte>): (cs: seq<seq<byte>>)
    ensures Flatten(cs) == payload
    decreases |payload|
  {
    if payload == [] then []
    else if |payload| <= DataCapacity then [payload]
    else
      var cs := [payload[..DataCapacity]] + Chunks(payload[DataCapacity..]);
      assert cs[1..] == Chunks(payload[DataCapacity..]);
      cs
  }

  /** Every chunk holds 1 to 256 bytes, and every chunk but the last exactly 256. */
  lemma {:induction false} ChunksSized(payload: seq<byte>)
    ensures forall i :: 0 <= i < |Chunks(payload)| ==> 1 <= |Chunks(payload)[i]| <= DataCapacity
    ensures forall i :: 0 <= i < |Chunks(payload)| - 1 ==> |Chunks(payload)[i]| == DataCapacity
    decreases |payload|
  {
    if |payload| > DataCapacity {
      var rest := payload[DataCapacity..];
      ChunksSized(rest);
      var cs := Chunks(payload);
      assert cs == [payload[..DataCapacity]] + Chunks(rest);
      forall i | 1 <= i < |cs|
        ensures cs[i] == Chunks(rest)[i - 1]
      {
      }
    }
  }

  /** The events the flushes of `chunks` leave, `sent` payload bytes having preceded them:
      each chunk is written and the progress bar moves to the bytes received so far. */
  function ChunkLog(chunks: seq<seq<byte>>, sent: int): seq<Event>
  {
    if chunks == [] then []
    else [FileWrite(chunks[0], true), ProgressUpdate(sent + |chunks[0]|)] + ChunkLog(chunks[1..], sent + |chunks[0]|)
  }

  /** The bytes one call wrote: those of a successful `f_write`, none for anything else. */
  function WrittenBy(e: Event): seq<byte>
  {
    if e.FileWrite? && e.ok then e.data else []
  }

  /** The bytes a log's successful `f_write` calls wrote, in order. */
  function Written(log: seq<Event>): seq<byte>
  {
    if log == [] then [] else WrittenBy(log[0]) + Written(log[1..])
  }

  lemma {:induction false} WrittenAppend(a: seq<Event>, b: seq<Event>)
    ensures Written(a + b) == Written(a) + Written(b)
  {
    if a == [] {
      assert a + b == b;
    } else {
      var ab := a + b;
      assert ab[0] == a[0] && ab[1..] == a[1..] + b;
      WrittenAppend(a[1..], b);
      assert Written(ab) == WrittenBy(a[0]) + (Written(a[1..]) + Written(b));
      assert Written(a) == WrittenBy(a[0]) + Written(a[1..]);
    }
  }

  /** A log without writes wrote nothing. */
  lemma {:induction false} WrittenNone(log: seq<Event>)
    requires forall i :: 0 <= i < |log| ==> !log[i].FileWrite?
    ensures Written(log) == []
  {
    if log != [] {
      WrittenNone(log[1..]);
    }
  }

  /** One flush writes its chunk and nothing else. */
  lemma WrittenFlush(chunk: seq<byte>, at: int)
    ensures Written([FileWrite(chunk, true), ProgressUpdate(at)]) == chunk
  {
    var head := [FileWrite(chunk, true), ProgressUpdate(at)];
    assert head[1..] == [ProgressUpdate(at)] && head[1..][1..] == [];
    assert Written(head[1..]) == [];
    assert Written(head) == chunk + Written(head[1..]);
    assert chunk + [] == chunk;
  }

  /** The flushes of a chunk list write exactly the chunks' bytes, in order. */
  lemma {:induction false} WrittenChunkLog(chunks: seq<seq<byte>>, sent: int)
    ensures Written(ChunkLog(chunks, sent)) == Flatten(chunks)
    decreases |chunks|
  {
    if chunks != [] {
      var at := sent + |chunks[0]|;
      var head := [FileWrite(chunks[0], true), ProgressUpdate(at)];
      var tail := ChunkLog(chunks[1..], at);
      assert ChunkLog(chunks, sent) == head + tail;
      WrittenAppend(head, tail);
      WrittenFlush(chunks[0], at);
      WrittenChunkLog(chunks[1..], at);
      assert Flatten(chunks) == chunks[0] + Flatten(chunks[1..]);
    }
  }

  lemma SpliceSplice(buf: seq<byte>, at: nat, a: seq<byte>, b: seq<byte>)
    requires at + |a| + |b| <= |buf|
    ensures Splice(Splice(buf, at, a), at + |a|, b) == Splice(buf, at, a + b)
  {
    var m := Splice(buf, at, a);
    assert m[..at + |a|] == buf[..at] + a;
    assert m[at + |a| + |b|..] == buf[at + |a| + |b|..];
  }

  lemma PutPut(s: Session, a: seq<byte>, b: seq<byte>)
    requires Valid(s) && s.pos + |a| + |b| <= Capacity(s.p)
    ensures Valid(Put(s, a)) && Put(Put(s, a), b) == Put(s, a + b)
  {
    match s.p
    case NameBuffer => SpliceSplice(s.name, s.pos, a, b);
    case LengthBuffer => SpliceSplice(s.length, s.pos, a, b);
    case DataBuffer => SpliceSplice(s.data, s.pos, a, b);
  }

  lemma PutNothing(s: Session)
    requires Valid(s)
    ensures Put(s, []) == s
  {
    match s.p
    case NameBuffer => assert s.name[..s.pos] + [] + s.name[s.pos..] == s.name;
    case LengthBuffer => assert s.length[..s.pos] + [] + s.length[s.pos..] == s.length;
    case DataBuffer => assert s.data[..s.pos] + [] + s.data[s.pos..] == s.data;
  }

  /** Bytes other than the terminator, while the name or length field has room for them,
      are only stored. */
  lemma {:induction false} RunFill(s: Session, env: Env, xs: seq<byte>)
    requires Valid(s) && (s.stage == Name || s.stage == Length)
    requires NoZero(xs) && s.pos + |xs| <= Capacity(s.p)
    ensures Valid(Put(s, xs))
    ensures Run(s, env, xs) == Fed(Put(s, xs), env, Continue, |xs|)
    decreases |xs|
  {
    if xs == [] {
      PutNothing(s);
    } else {
      var t := Put(s, [xs[0]]);
      PutPut(s, [xs[0]], xs[1..]);
      assert [xs[0]] + xs[1..] == xs;
      assert Step(s, xs[0], env) == Stepped(t, env, Continue);
      RunFill(t, env, xs[1..]);
    }
  }

  /** The name field: the name is stored with its terminator, and `p` moves to the start
      of the length buffer. */
  lemma NameField(s: Session, env: Env, name: Path)
    requires Valid(s) && s.stage == Name && s.pos == 0
    requires NoZero(name) && |name| < NameCapacity
    ensures var t := Put(s, name + [Nul]);
            && Valid(t) && t.name == name + [Nul] + s.name[|name| + 1..]
            && Run(s, env, name + [Nul]) == Fed(t.(stage := Length, p := LengthBuffer, pos := 0), env, Continue, |name| + 1)
  {
    RunFill(s, env, name);
    var s2 := Put(s, name);
    PutPut(s, name, [Nul]);
    RunAppend(s, env, name, [Nul]);
    assert Step(s2, Nul, env).stop == Continue;
  }

  /** The length field: at its terminator `bytes_total` becomes the decimal value, the file
      named by the name buffer is opened, and the call goes on in DATA or stops with
      `srError` in LENGTH. */
  lemma LengthField(s: Session, env: Env, n: nat)
    requires Valid(s) && s.stage == Length && s.p == LengthBuffer && s.pos == 0
    requires n <= LongMax && |Decimal(n)| < LengthCapacity
    ensures var d := Decimal(n);
            var u := s.(length := Put(s, d + [Nul]).length, read := 0, total := n, p := DataBuffer, pos := 0);
            var path := CString(s.name);
            Run(s, env, d + [Nul]) ==
              if Succeeds(env) then
                Fed(u.(stage := Data), Record(Consume(env), [OpenForWrite(path, true), ProgressShow(CopyingToSd, n)]), Continue, |d| + 1)
              else
                Fed(u, Record(Consume(env), [OpenForWrite(path, false), ProgressShow(ErrorCode, 1)]), Error, |d| + 1)
  {
    var d := Decimal(n);
    assert NoZero(d) by {
      forall i | 0 <= i < |d| ensures d[i] != Nul { assert IsDigit(d[i]); }
    }
    RunFill(s, env, d);
    var s4 := Put(s, d);
    PutPut(s, d, [Nul]);
    var t := Put(s4, [Nul]);
    assert t.length == d + [Nul] + s.length[|d| + 1..];
    AtolDecimal(n, s.length[|d| + 1..]);
    RunAppend(s, env, d, [Nul]);
  }

  /** The header of a record, from NONE: both fields parsed, the file opened and the
      progress bar shown with the declared length, or, when `f_open` fails, `srError`
      with the session left in LENGTH. Either way the call takes exactly the header. */
  lemma FeedHeader(s: Session, env: Env, name: Path, n: nat)
    requires Valid(s) && s.stage == Idle
    requires NoZero(name) && |name| < NameCapacity && n <= LongMax
    ensures var f := Feed(s, env, Header(name, n));
            && f.consumed == |Header(name, n)| && CString(f.s.name) == name
            && (Succeeds(env) ==>
                  && f.outcome == Continue && f.s.stage == Data && f.s.pos == 0
                  && f.s.read == 0 && f.s.total == n
                  && f.env == Record(Consume(env), [OpenForWrite(name, true), ProgressShow(CopyingToSd, n)]))
            && (!Succeeds(env) ==>
                  && f.outcome == Error && f.s.stage == Length
                  && f.env == Record(Consume(env), [OpenForWrite(name, false), ProgressShow(ErrorCode, 1)]))
  {
    var s1 := Begin(s);
    var t := Put(s1, name + [Nul]);
    var s3 := t.(stage := Length, p := LengthBuffer, pos := 0);
    var d := Decimal(n);
    assert Valid(t) && Run(s1, env, name + [Nul]) == Fed(s3, env, Continue, |name| + 1)
        && CString(s3.name) == name by {
      NameField(s1, env, name);
      CStringOfTerminated(name, s1.name[|name| + 1..]);
    }
    DecimalFitsLengthBuffer(n);
    LengthField(s3, env, n);
    HeaderFields(name, n);
    RunAppend(s1, env, name + [Nul], d + [Nul]);
  }

  /** A header is its two NUL-terminated fields. */
  lemma HeaderFields(name: Path, n: nat)
    ensures Header(name, n) == (name + [Nul]) + (Decimal(n) + [Nul])
  {
  }

  /** A payload byte that completes the record: flush, then close and select. */
  lemma DataStepLast(s: Session, env: Env, x: byte)
    requires Valid(s) && s.stage == Data && s.pos < DataCapacity
    requires s.read + 1 == s.total && env.faults == []
    ensures var t := Put(s, [x]);
            Step(s, x, env) == Stepped(t.(read := s.total, pos := 0, stage := Idle),
                                       Record(env, [FileWrite(t.data[..t.pos], true), ProgressUpdate(s.total)] + Finale(CString(s.name))),
                                       Finish)
  {
    var t := Put(s, [x]);
    assert Inc32(t.read) == s.total;
  }

  /** A payload byte that fills the data buffer before the end of the record: flush. */
  lemma DataStepFull(s: Session, env: Env, x: byte)
    requires Valid(s) && s.stage == Data && s.pos + 1 == DataCapacity
    requires s.read + 1 < s.total && env.faults == []
    ensures var t := Put(s, [x]);
            Step(s, x, env) == Stepped(t.(read := s.read + 1, pos := 0),
                                       Record(env, [FileWrite(t.data[..t.pos], true), ProgressUpdate(s.read + 1)]),
                                       Continue)
  {
    var t := Put(s, [x]);
    assert Inc32(t.read) == s.read + 1;
  }

  /** Any other payload byte is stored and counted. */
  lemma DataStepStore(s: Session, env: Env, x: byte)
    requires Valid(s) && s.stage == Data && s.pos + 1 < DataCapacity
    requires s.read + 1 < s.total
    ensures Step(s, x, env) == Stepped(Put(s, [x]).(read := s.read + 1), env, Continue)
  {
    var t := Put(s, [x]);
    assert Inc32(t.read) == s.read + 1;
  }

  /** Storing one byte at the end of what the data buffer holds extends it. */
  lemma PutData(s: Session, x: byte)
    requires Valid(s) && s.p == DataBuffer && s.pos < DataCapacity
    ensures Put(s, [x]).data[..s.pos + 1] == s.data[..s.pos] + [x]
  {
  }

  /** The log of the chunks of `pending + rest` when `pending + [rest[0]]` fills a chunk. */
  lemma ChunkLogFull(pending: seq<byte>, rest: seq<byte>, base: int, next: int)
    requires |pending| + 1 == DataCapacity && 2 <= |rest| && next == base + DataCapacity
    ensures ChunkLog(Chunks(pending + rest), base)
              == [FileWrite(pending + [rest[0]], true), ProgressUpdate(next)] + ChunkLog(Chunks(rest[1..]), next)
  {
    var all := pending + rest;
    var p' := pending + [rest[0]];
    assert all[..DataCapacity] == p' && all[DataCapacity..] == rest[1..];
    var cs := Chunks(all);
    assert cs == [p'] + Chunks(rest[1..]);
    assert cs[1..] == Chunks(rest[1..]);
  }

  /** The payload, from DATA with `pending` bytes buffered since the last flush, `all`
      being those and the bytes still to come and `base` the count before them: every byte
      is counted, a flush writes the buffer whenever it is full or the declared length is
      reached, and the last byte closes the file and finishes the record. */
  lemma {:induction false} RunPayload(s: Session, env: Env, pending: seq<byte>, rest: seq<byte>, all: seq<byte>, base: int)
    requires Valid(s) && s.stage == Data
    requires s.pos == |pending| < DataCapacity && s.data[..s.pos] == pending
    requires rest != [] && s.read + |rest| == s.total && |pending| <= s.read
    requires all == pending + rest && base == s.read - |pending|
    requires env.faults == []
    ensures var f := Run(s, env, rest);
            && f.outcome == Finish && f.consumed == |rest| && f.s.name == s.name && f.s.stage == Idle
            && f.env == Record(env, ChunkLog(Chunks(all), base) + Finale(CString(s.name)))
    decreases |rest|, 2
  {
    var x := rest[0];
    var p' := pending + [x];
    if s.read + 1 == s.total {
      PutData(s, x);
      DataStepLast(s, env, x);
      RunStops(s, env, rest, Step(s, x, env));
      assert rest == [x];
      assert Chunks(all) == [p'];
      assert ChunkLog([p'], base) == [FileWrite(p', true), ProgressUpdate(s.read + 1)];
    } else if |p'| == DataCapacity {
      RunPayloadFlush(s, env, pending, rest, all, base);
    } else {
      RunPayloadStore(s, env, pending, rest, all, base);
    }
  }

  /** The first turn of `RunPayloadFlush`: the byte fills the buffer, which is written. */
  lemma FlushTurn(s: Session, env: Env, rest: seq<byte>)
    requires Valid(s) && s.stage == Data && s.pos + 1 == DataCapacity
    requires 2 <= |rest| && s.read + |rest| == s.total && env.faults == []
    ensures var w := Put(s, [rest[0]]).(read := s.read + 1, pos := 0);
            var e := Record(env, [FileWrite(s.data[..s.pos] + [rest[0]], true), ProgressUpdate(s.read + 1)]);
            var g := Run(w, e, rest[1..]);
            && Valid(w) && w.stage == Data && w.name == s.name && w.total == s.total
            && Run(s, env, rest) == g.(consumed := g.consumed + 1)
  {
    var x := rest[0];
    PutData(s, x);
    DataStepFull(s, env, x);
    var w := Put(s, [x]).(read := s.read + 1, pos := 0);
    var e := Record(env, [FileWrite(s.data[..s.pos] + [x], true), ProgressUpdate(s.read + 1)]);
    RunContinues(s, env, rest, Stepped(w, e, Continue));
  }

  /** `RunPayload` where the next byte fills the buffer before the record ends. */
  lemma {:induction false} RunPayloadFlush(s: Session, env: Env, pending: seq<byte>, rest: seq<byte>, all: seq<byte>, base: int)
    requires Valid(s) && s.stage == Data
    requires s.pos == |pending| && |pending| + 1 == DataCapacity && s.data[..s.pos] == pending
    requires 2 <= |rest| && s.read + |rest| == s.total && |pending| <= s.read
    requires all == pending + rest && base == s.read - |pending|
    requires env.faults == []
    ensures var f := Run(s, env, rest);
            && f.outcome == Finish && f.consumed == |rest| && f.s.name == s.name && f.s.stage == Idle
            && f.env == Record(env, ChunkLog(Chunks(all), base) + Finale(CString(s.name)))
    decreases |rest|, 1
  {
    FlushTurn(s, env, rest);
    var w := Put(s, [rest[0]]).(read := s.read + 1, pos := 0);
    var e := Record(env, [FileWrite(pending + [rest[0]], true), ProgressUpdate(s.read + 1)]);
    AfterFlush(s, env, w, e, pending, rest, all, base);
  }

  /** What follows the flush of `RunPayloadFlush`: the rest of the payload from an empty
      buffer, with statics `w` and world `e` after the flush. */
  lemma {:induction false} AfterFlush(s: Session, env: Env, w: Session, e: Env, pending: seq<byte>, rest: seq<byte>, all: seq<byte>, base: int)
    requires Valid(w) && w.stage == Data && w.pos == 0 && w.name == s.name
    requires w.read == s.read + 1 && w.total == s.total
    requires |pending| + 1 == DataCapacity
    requires 2 <= |rest| && s.read + |rest| == s.total && |pending| <= s.read
    requires all == pending + rest && base == s.read - |pending|
    requires e == Record(env, [FileWrite(pending + [rest[0]], true), ProgressUpdate(s.read + 1)])
    requires env.faults == []
    ensures var g := Run(w, e, rest[1..]);
            && g.outcome == Finish && g.consumed == |rest| - 1 && g.s.name == s.name && g.s.stage == Idle
            && g.env == Record(env, ChunkLog(Chunks(all), base) + Finale(CString(s.name)))
    decreases |rest|, 0
  {
    assert w.data[..0] == [];
    assert rest[1..] == [] + rest[1..];
    RunPayload(w, e, [], rest[1..], rest[1..], s.read + 1);
    FlushLog(env, pending, rest, all, base, s.read + 1, Finale(CString(s.name)));
  }

  /** The log of `AfterFlush`: the flush, then the log of the rest from an empty buffer. */
  lemma FlushLog(env: Env, pending: seq<byte>, rest: seq<byte>, all: seq<byte>, base: int, next: int, fin: seq<Event>)
    requires |pending| + 1 == DataCapacity && 2 <= |rest| && next == base + DataCapacity
    requires all == pending + rest
    ensures Record(Record(env, [FileWrite(pending + [rest[0]], true), ProgressUpdate(next)]),
                   ChunkLog(Chunks(rest[1..]), next) + fin)
            == Record(env, ChunkLog(Chunks(all), base) + fin)
  {
    var head := [FileWrite(pending + [rest[0]], true), ProgressUpdate(next)];
    ChunkLogFull(pending, rest, base, next);
    RecordAppend(env, head, ChunkLog(Chunks(rest[1..]), next) + fin);
    assert head + (ChunkLog(Chunks(rest[1..]), next) + fin) == ChunkLog(Chunks(all), base) + fin;
  }

  /** The first turn of `RunPayloadStore`: the byte is stored and counted. */
  lemma StoreTurn(s: Session, env: Env, pending: seq<byte>, rest: seq<byte>)
    requires Valid(s) && s.stage == Data
    requires s.pos == |pending| && |pending| + 1 < DataCapacity && s.data[..s.pos] == pending
    requires 2 <= |rest| && s.read + |rest| == s.total
    ensures var u := Put(s, [rest[0]]).(read := s.read + 1);
            && Valid(u) && u.stage == Data && u.pos == |pending| + 1 && u.data[..u.pos] == pending + [rest[0]]
            && u.name == s.name && u.total == s.total
            && Run(s, env, rest) == Run(u, env, rest[1..]).(consumed := Run(u, env, rest[1..]).consumed + 1)
  {
    var x := rest[0];
    PutData(s, x);
    DataStepStore(s, env, x);
    RunContinues(s, env, rest, Stepped(Put(s, [x]).(read := s.read + 1), env, Continue));
  }

  /** `RunPayload` where the next byte is only stored and counted. */
  lemma {:induction false} RunPayloadStore(s: Session, env: Env, pending: seq<byte>, rest: seq<byte>, all: seq<byte>, base: int)
    requires Valid(s) && s.stage == Data
    requires s.pos == |pending| && |pending| + 1 < DataCapacity && s.data[..s.pos] == pending
    requires 2 <= |rest| && s.read + |rest| == s.total && |pending| <= s.read
    requires all == pending + rest && base == s.read - |pending|
    requires env.faults == []
    ensures var f := Run(s, env, rest);
            && f.outcome == Finish && f.consumed == |rest| && f.s.name == s.name && f.s.stage == Idle
            && f.env == Record(env, ChunkLog(Chunks(all), base) + Finale(CString(s.name)))
    decreases |rest|, 1
  {
    StoreTurn(s, env, pending, rest);
    AfterStore(s, env, pending, rest, all, base);
  }

  /** What follows the byte `RunPayloadStore` stores: the rest of the payload with one
      more byte buffered. */
  lemma {:induction false} AfterStore(s: Session, env: Env, pending: seq<byte>, rest: seq<byte>, all: seq<byte>, base: int)
    requires Valid(s) && s.stage == Data
    requires s.pos == |pending| && |pending| + 1 < DataCapacity && s.data[..s.pos] == pending
    requires 2 <= |rest| && s.read + |rest| == s.total && |pending| <= s.read
    requires all == pending + rest && base == s.read - |pending|
    requires env.faults == []
    ensures var u := Put(s, [rest[0]]).(read := s.read + 1);
            var g := Run(u, env, rest[1..]);
            && g.outcome == Finish && g.consumed == |rest| - 1 && g.s.name == s.name && g.s.stage == Idle
            && g.env == Record(env, ChunkLog(Chunks(all), base) + Finale(CString(s.name)))
    decreases |rest|, 0
  {
    var p' := pending + [rest[0]];
    var u := Put(s, [rest[0]]).(read := s.read + 1);
    PutData(s, rest[0]);
    assert p' + rest[1..] == all;
    RunPayload(u, env, p', rest[1..], all, base);
  }

  /** The calls a whole record makes when nothing fails: open the named file and show the
      progress bar for the declared length, write the payload as 256-byte chunks with
      progress after each, then close the file, hide the bar, reload the list and select
      the file. */
  function RecordLog(name: Path, payload: seq<byte>): seq<Event>
  {
    [OpenForWrite(name, true), ProgressShow(CopyingToSd, |payload|)] + ChunkLog(Chunks(payload), 0) + Finale(name)
  }

  /** The bytes those calls write are the payload, in arrival order. */
  lemma RecordLogWrites(name: Path, payload: seq<byte>)
    ensures Written(RecordLog(name, payload)) == payload
  {
    var opening := [OpenForWrite(name, true), ProgressShow(CopyingToSd, |payload|)];
    WrittenAppend(opening + ChunkLog(Chunks(payload), 0), Finale(name));
    WrittenAppend(opening, ChunkLog(Chunks(payload), 0));
    WrittenChunkLog(Chunks(payload), 0);
    WrittenNone(opening);
    WrittenNone(Finale(name));
  }

  /** The payload of a record whose header has been read with the file opened. */
  lemma FeedPayload(s: Session, env: Env, name: Path, payload: seq<byte>, more: seq<byte>)
    requires Valid(s) && s.stage == Data && s.pos == 0 && s.read == 0 && s.total == |payload|
    requires CString(s.name) == name && 0 < |payload| && env.faults == []
    ensures var f := Run(s, env, payload + more);
            && f.outcome == Finish && f.consumed == |payload| && f.s.stage == Idle
            && f.env == Record(env, ChunkLog(Chunks(payload), 0) + Finale(name))
  {
    assert s.data[..0] == [];
    assert payload == [] + payload;
    RunPayload(s, env, [], payload, payload, 0);
    RunAppend(s, env, payload, more);
  }

  /** A whole record, from NONE with nothing failing: the call finishes exactly at the
      record's last byte, leaving whatever follows in the stream, after making the calls of
      `RecordLog`; so the bytes written are the payload, in arrival order. */
  lemma FeedRecord(s: Session, env: Env, name: Path, payload: seq<byte>, more: seq<byte>)
    requires Valid(s) && s.stage == Idle
    requires NoZero(name) && |name| < NameCapacity
    requires 0 < |payload| <= LongMax && env.faults == []
    ensures var f := Feed(s, env, RecordBytes(name, payload) + more);
            && f.outcome == Finish && f.consumed == |RecordBytes(name, payload)| && f.s.stage == Idle
            && f.env == Record(env, RecordLog(name, payload))
            && Written(f.env.log[|env.log|..]) == payload
  {
    var header := Header(name, |payload|);
    var opening := [OpenForWrite(name, true), ProgressShow(CopyingToSd, |payload|)];
    var chunks := ChunkLog(Chunks(payload), 0);
    var f := Feed(s, env, RecordBytes(name, payload) + more);
    assert && f.outcome == Finish && f.consumed == |header| + |payload| && f.s.stage == Idle
           && f.env == Record(Record(env, opening), chunks + Finale(name)) by {
      FeedParts(s, env, name, payload, more);
    }
    RecordAppend(env, opening, chunks + Finale(name));
    assert opening + (chunks + Finale(name)) == RecordLog(name, payload);
    RecordedTail(env, RecordLog(name, payload));
    RecordLogWrites(name, payload);
  }

  /** `FeedRecord` before the log is put together: the header, then the payload. */
  lemma FeedParts(s: Session, env: Env, name: Path, payload: seq<byte>, more: seq<byte>)
    requires Valid(s) && s.stage == Idle
    requires NoZero(name) && |name| < NameCapacity
    requires 0 < |payload| <= LongMax && env.faults == []
    ensures var f := Feed(s, env, RecordBytes(name, payload) + more);
            && f.outcome == Finish && f.consumed == |Header(name, |payload|)| + |payload| && f.s.stage == Idle
            && f.env == Record(Record(env, [OpenForWrite(name, true), ProgressShow(CopyingToSd, |payload|)]),
                               ChunkLog(Chunks(payload), 0) + Finale(name))
  {
    var header := Header(name, |payload|);
    var opening := [OpenForWrite(name, true), ProgressShow(CopyingToSd, |payload|)];
    var h := Feed(s, env, header);
    assert Valid(h.s) && h.s.stage == Data && h.s.pos == 0 && h.s.read == 0 && h.s.total == |payload|
        && CString(h.s.name) == name && h.env == Record(env, opening) && h.outcome == Continue by {
      FeedHeader(s, env, name, |payload|);
    }
    var g := Run(h.s, h.env, payload + more);
    assert g.outcome == Finish && g.consumed == |payload| && g.s.stage == Idle
        && g.env == Record(h.env, ChunkLog(Chunks(payload), 0) + Finale(name)) by {
      FeedPayload(h.s, h.env, name, payload, more);
    }
    RecordBytesParts(name, payload, more);
    FeedThen(s, env, header, payload + more);
  }

  /** A record followed by more bytes is its header followed by the payload and the rest. */
  lemma RecordBytesParts(name: Path, payload: seq<byte>, more: seq<byte>)
    ensures RecordBytes(name, payload) + more == Header(name, |payload|) + (payload + more)
  {
  }

  /** A call over `a + b` whose first `a` bytes leave it running goes on over `b`. */
  lemma FeedThen(s: Session, env: Env, a: seq<byte>, b: seq<byte>)
    requires Valid(s) && Feed(s, env, a).outcome == Continue
    ensures var h := Feed(s, env, a);
            var g := Run(h.s, h.env, b);
            Feed(s, env, a + b) == g.(consumed := |a| + g.consumed)
  {
    RunAppend(Begin(s), env, a, b);
  }

  /** What a recording adds to the log is what was recorded. */
  lemma RecordedTail(env: Env, evs: seq<Event>)
    ensures Record(env, evs).log[|env.log|..] == evs
  {
  }

  /** A header that declares length 0 does not finish the record at its terminator: the
      counter is incremented before it is compared, so the session waits in DATA. */
  lemma ZeroLengthNotFinishedAtHeader(s: Session, env: Env, name: Path)
    requires Valid(s) && s.stage == Idle
    requires NoZero(name) && |name| < NameCapacity && Succeeds(env)
    ensures var f := Feed(s, env, Header(name, 0));
            f.outcome == Continue && f.s.stage == Data && f.s.total == 0 && f.s.read == 0
  {
    FeedHeader(s, env, name, 0);
  }

  /** ... nor at any later byte until `bytes_read` wraps around: with nothing failing, a
      declared length of 0 keeps the call in DATA for every byte up to the 2^32-th. */
  lemma {:induction false} ZeroLengthKeepsReceiving(s: Session, env: Env, rest: seq<byte>)
    requires Valid(s) && s.stage == Data && s.total == 0 && s.pos < DataCapacity
    requires s.read + |rest| < U32Modulus && env.faults == []
    ensures var f := Run(s, env, rest);
            f.outcome == Continue && f.s.stage == Data && f.s.read == s.read + |rest|
    decreases |rest|
  {
    if rest != [] {
      var st := Step(s, rest[0], env);
      assert Inc32(s.read) == s.read + 1;
      assert st.stop == Continue && st.s.stage == Data && st.s.pos < DataCapacity && st.s.read == s.read + 1;
      ZeroLengthKeepsReceiving(st.s, st.env, rest[1..]);
    }
  }

  /** A name of 256 bytes with no terminator fills the name buffer, and the next byte
      would be stored past its end. */
  lemma LongNameOverruns(s: Session, env: Env, name: Path, b: byte, more: seq<byte>)
    requires Valid(s) && s.stage == Idle
    requires NoZero(name) && |name| == NameCapacity
    ensures Feed(s, env, name + [b] + more).outcome == Overrun
  {
    var s1 := Begin(s);
    RunFill(s1, env, name);
    assert name + [b] + more == name + ([b] + more);
    RunAppend(s1, env, name, [b] + more);
  }

  /** A length field of 16 bytes with no terminator: the next byte would be stored past the
      end of the length buffer. */
  lemma LongLengthOverruns(s: Session, env: Env, name: Path, digits: seq<byte>, b: byte, more: seq<byte>)
    requires Valid(s) && s.stage == Idle
    requires NoZero(name) && |name| < NameCapacity
    requires NoZero(digits) && |digits| == LengthCapacity
    ensures Feed(s, env, name + [Nul] + digits + [b] + more).outcome == Overrun
  {
    var s1 := Begin(s);
    NameField(s1, env, name);
    var t := Put(s1, name + [Nul]);
    var s3 := t.(stage := Length, p := LengthBuffer, pos := 0);
    RunFill(s3, env, digits);
    RunAppend(s3, env, digits, [b] + more);
    assert name + [Nul] + digits + [b] + more == (name + [Nul]) + (digits + ([b] + more));
    RunAppend(s1, env, name + [Nul], digits + ([b] + more));
  }

  /** A flush that fails on a full data buffer returns `srError` with `p` still at the end
      of the buffer and the stage still DATA, and nothing resets them: the first byte of the
      next call, whatever the world then, is stored past the end of the data buffer. */
  lemma FailedFlushOverruns(s: Session, env: Env, b: byte, next: seq<byte>, later: Env)
    requires Valid(s) && s.stage == Data && s.pos + 1 == DataCapacity
    requires Inc32(s.read) != s.total && !Succeeds(env) && next != []
    ensures var f := Feed(s, env, [b]);
            && f.outcome == Error && f.s.stage == Data && f.s.p == DataBuffer && f.s.pos == DataCapacity
            && Feed(f.s, later, next).outcome == Overrun
  {
    var t := Put(s, [b]);
    var f := Feed(s, env, [b]);
    assert Step(s, b, env).stop == Error;
    assert f.s == t.(read := Inc32(s.read));
    assert Step(f.s, next[0], later).stop == Overrun;
  }

  /** A failed `f_open` returns `srError` in LENGTH with `p` already at the start of the
      data buffer. The next call stays in LENGTH and stores there, so any 256 bytes with no
      terminator that it receives are followed by a byte stored past the end of the data
      buffer. */
  lemma FailedOpenOverruns(s: Session, env: Env, later: Env, xs: seq<byte>, b: byte, more: seq<byte>)
    requires Valid(s) && s.stage == Length && s.p == LengthBuffer && s.pos < LengthCapacity
    requires !Succeeds(env)
    requires NoZero(xs) && |xs| == DataCapacity
    ensures var f := Feed(s, env, [Nul]);
            && f.outcome == Error && f.s.stage == Length && f.s.p == DataBuffer && f.s.pos == 0
            && Feed(f.s, later, xs + [b] + more).outcome == Overrun
  {
    var f := Feed(s, env, [Nul]);
    assert f.outcome == Error && f.s.stage == Length && f.s.p == DataBuffer && f.s.pos == 0 by {
      assert Step(s, Nul, env).stop == Error;
    }
    FillOverruns(f.s, later, xs, b, more);
  }

  /** Bytes other than the terminator that fill the buffer `p` points into, in LENGTH,
      leave the next byte nowhere to go. */
  lemma FillOverruns(s: Session, env: Env, xs: seq<byte>, b: byte, more: seq<byte>)
    requires Valid(s) && s.stage == Length && NoZero(xs) && s.pos + |xs| == Capacity(s.p)
    ensures Feed(s, env, xs + [b] + more).outcome == Overrun
  {
    RunFill(s, env, xs);
    RunAppend(s, env, xs, [b] + more);
    assert xs + [b] + more == xs + ([b] + more);
  }
}
