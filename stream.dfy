/** The receive state machine of `FlashLoader::StreamData`, as a function of its static
    state, the world outside and the bytes a call can read from the command stream.

    A record is `<name> 0x00 <ASCII decimal length> 0x00 <payload>`. The statics are kept
    exactly: the stage, the three fixed buffers (256, 16 and 256 bytes), the write pointer
    `p` (which buffer, and the offset into it) and the 32-bit counters `bytes_total` and
    `bytes_read`. Every byte is stored at `p` before the stage looks at it. */
module Stream {
  import opened Common
  import opened CText

  const NameCapacity: nat := 256
  const LengthCapacity: nat := 16
  const DataCapacity: nat := 256

  /** `StreamState`: NONE, NAME, LENGTH, DATA. */
  datatype Stage = Idle | Name | Length | Data

  /** The buffer `p` points into. */
  datatype Buffer = NameBuffer | LengthBuffer | DataBuffer

  /** What a call returns: `srContinue`, `srFinish`, `srError`. `Overrun` is not a value of
      the firmware: it marks the byte the firmware would store past the end of a buffer
      (no store is bounds-checked), after which its behaviour is undefined. */
  datatype Outcome = Continue | Finish | Error | Overrun

  function Capacity(b: Buffer): nat
  {
    match b
    case NameBuffer => NameCapacity
    case LengthBuffer => LengthCapacity
    case DataBuffer => DataCapacity
  }

  /** The statics of `StreamData`. `pos` is `p` minus the start of buffer `p`. */
  datatype Session = Session(stage: Stage, name: seq<byte>, length: seq<byte>, data: seq<byte>,
                             p: Buffer, pos: nat, total: u32, read: u32)

  /** The buffers have their declared sizes, `p` lies within its buffer, and the stages that
      store through `p` point it where they set it. (LENGTH may find `p` at the data buffer:
      a failed `f_open` leaves it there.) */
  predicate Valid(s: Session)
  {
    && |s.name| == NameCapacity && |s.length| == LengthCapacity && |s.data| == DataCapacity
    && s.pos <= Capacity(s.p)
    && (s.stage == Name ==> s.p == NameBuffer)
    && (s.stage == Length ==> s.p != NameBuffer)
    && (s.stage == Data ==> s.p == DataBuffer)
  }

  /** The statics at start-up: zero-filled buffers, NONE, `bytes_read == 0`. `p` starts as
      a null pointer, which is never used: the first call points it at the name buffer. */
  function Initial(): (s: Session)
    ensures Valid(s) && s.stage == Idle
  {
    Session(Idle, seq(NameCapacity, _ => Nul), seq(LengthCapacity, _ => Nul),
            seq(DataCapacity, _ => Nul), NameBuffer, 0, 0, 0)
  }

  /** `buf` with `xs` written over it from offset `at`. */
  function Splice(buf: seq<byte>, at: nat, xs: seq<byte>): seq<byte>
    requires at + |xs| <= |buf|
  {
    buf[..at] + xs + buf[at + |xs|..]
  }

  /** The buffer `p` points into, as the statics hold it. */
  function Target(s: Session): seq<byte>
  {
    match s.p
    case NameBuffer => s.name
    case LengthBuffer => s.length
    case DataBuffer => s.data
  }

  /** `t` holds the buffer of `s` that `p` points into with `xs` written from `p` on: the
      bytes before and after them are the old ones. */
  predicate Stored(s: Session, t: Session, xs: seq<byte>)
  {
    && |Target(t)| == |Target(s)| && s.pos + |xs| <= |Target(s)|
    && Target(t)[s.pos..s.pos + |xs|] == xs
    && Target(t)[..s.pos] == Target(s)[..s.pos] && Target(t)[s.pos + |xs|..] == Target(s)[s.pos + |xs|..]
  }

  /** `*p++ = x` for each `x` of `xs` in turn: `p` moves past them and only the buffer it
      points into changes (`PutStores` says how). */
  function Put(s: Session, xs: seq<byte>): (t: Session)
    requires Valid(s) && s.pos + |xs| <= Capacity(s.p)
    ensures Valid(t) && t.stage == s.stage && t.p == s.p && t.pos == s.pos + |xs|
    ensures t.total == s.total && t.read == s.read
    ensures s.p != NameBuffer ==> t.name == s.name
    ensures s.p != LengthBuffer ==> t.length == s.length
    ensures s.p != DataBuffer ==> t.data == s.data
  {
    match s.p
    case NameBuffer => s.(name := Splice(s.name, s.pos, xs), pos := s.pos + |xs|)
    case LengthBuffer => s.(length := Splice(s.length, s.pos, xs), pos := s.pos + |xs|)
    case DataBuffer => s.(data := Splice(s.data, s.pos, xs), pos := s.pos + |xs|)
  }

  /** What `Put` writes: the bytes land in the buffer `p` points into, from `p` on, and
      the rest of that buffer keeps its old bytes. */
  lemma PutStores(s: Session, xs: seq<byte>)
    requires Valid(s) && s.pos + |xs| <= Capacity(s.p)
    ensures Stored(s, Put(s, xs), xs)
  {
  }

  /** The start of every call: from NONE a new record begins, with `p` at the name buffer. */
  function Begin(s: Session): Session
  {
    if s.stage == Idle then s.(stage := Name, p := NameBuffer, pos := 0) else s
  }

  /** What completion does after the last flush: close the file, hide the progress bar,
      reload the file list and select the file just written. */
  function Finale(name: Path): seq<Event>
  {
    [FileClose, ProgressHide, ListRefreshed, FileSelected(name)]
  }

  /** Every write of a log carries between 1 and 256 bytes. */
  predicate WritesBounded(log: seq<Event>)
  {
    forall e :: e in log && e.FileWrite? ==> 1 <= |e.data| <= DataCapacity
  }

  /** A call to `f_open` for writing or to `f_write` that failed. */
  predicate WriteFailed(e: Event)
  {
    (e.OpenForWrite? || e.FileWrite?) && !e.ok
  }

  /** No call to `f_open` for writing or to `f_write` in `log` failed. */
  predicate NoWriteFailure(log: seq<Event>)
  {
    forall e :: e in log ==> !WriteFailed(e)
  }

  /** A failed open or write in `log` comes only among its last two calls, and only in a
      call that ends with `srError`. */
  predicate FailuresLast(log: seq<Event>, o: Outcome)
  {
    forall i :: 0 <= i < |log| && WriteFailed(log[i]) ==> o == Error && i >= |log| - 2
  }

  /** `log` ends with `tail`. */
  predicate LogEndsWith(log: seq<Event>, tail: seq<Event>)
  {
    |tail| <= |log| && log[|log| - |tail|..] == tail
  }

  /** The events an `srError` leaves last, by the stage it leaves: a failed `f_open` and the
      error code on the progress bar in LENGTH, a failed `f_write` in DATA. */
  predicate FailureEnds(log: seq<Event>, stage: Stage)
  {
    || (stage == Length && |log| >= 2 && log[|log| - 2].OpenForWrite? && !log[|log| - 2].ok
        && log[|log| - 1] == ProgressShow(ErrorCode, 1))
    || (stage == Data && |log| >= 1 && log[|log| - 1].FileWrite? && !log[|log| - 1].ok)
  }

  /** What every turn of the loop, and so every call, keeps: the statics stay well formed
      unless a byte overran, a call that has not ended is not in NONE and one that finished
      is; the map of files that can be read back is untouched, because writes to the card
      are only logged, and the log only grows; every write carries 1 to
      256 bytes; the file is closed only on completion, which ends with close, hide, list
      reload and selection of the name in the name buffer; an error ends with the failed
      call that caused it, and a failed open or write comes only among the last two calls of
      a call that ends with an error. */
  predicate Accounted(before: Env, after: Env, s: Session, o: Outcome)
  {
    && after.files == before.files && before.log <= after.log
    && (o != Overrun ==> Valid(s))
    && (o == Continue ==> s.stage != Idle)
    && (o == Finish ==> s.stage == Idle)
    && WritesBounded(after.log[|before.log|..])
    && (o != Finish ==> FileClose !in after.log[|before.log|..])
    && (o == Finish ==> LogEndsWith(after.log[|before.log|..], Finale(CString(s.name))))
    && (o == Error ==> FailureEnds(after.log[|before.log|..], s.stage))
    && FailuresLast(after.log[|before.log|..], o)
  }

  /** A failed `f_open` or `f_write` logged during a call that keeps `Accounted` means the
      call returned `srError`, and the failure is one of its last two calls. */
  lemma FailedWriteIsError(before: Env, after: Env, s: Session, o: Outcome, i: nat)
    requires Accounted(before, after, s, o)
    requires |before.log| <= i < |after.log| && WriteFailed(after.log[i])
    ensures o == Error && i >= |after.log| - 2
  {
    assert after.log[|before.log|..][i - |before.log|] == after.log[i];
  }

  /** A turn that does not end the call, followed by more, accounts for both. */
  lemma AccountedChain(e0: Env, e1: Env, e2: Env, s1: Session, s2: Session, o: Outcome)
    requires Accounted(e0, e1, s1, Continue) && Accounted(e1, e2, s2, o)
    ensures Accounted(e0, e2, s2, o)
  {
    var a, b := e1.log[|e0.log|..], e2.log[|e1.log|..];
    assert e2.log[|e0.log|..] == a + b;
    FailuresLastChain(a, b, o);
    if o == Finish {
      EndsWithChain(a, b, Finale(CString(s2.name)));
    } else if o == Error {
      FailureEndsChain(a, b, s2.stage);
    }
  }

  /** Calls with no failure before calls whose failures come last keep them last. */
  lemma FailuresLastChain(a: seq<Event>, b: seq<Event>, o: Outcome)
    requires FailuresLast(a, Continue) && FailuresLast(b, o)
    ensures FailuresLast(a + b, o)
  {
    forall i | 0 <= i < |a + b| && WriteFailed((a + b)[i])
      ensures o == Error && i >= |a + b| - 2
    {
      if i >= |a| {
        assert (a + b)[i] == b[i - |a|];
      }
    }
  }

  lemma EndsWithChain(a: seq<Event>, b: seq<Event>, tail: seq<Event>)
    requires LogEndsWith(b, tail)
    ensures LogEndsWith(a + b, tail)
  {
    assert (a + b)[|a + b| - |tail|..] == b[|b| - |tail|..];
  }

  lemma FailureEndsChain(a: seq<Event>, b: seq<Event>, stage: Stage)
    requires FailureEnds(b, stage)
    ensures FailureEnds(a + b, stage)
  {
    assert (a + b)[|a + b| - 1] == b[|b| - 1];
    if |b| >= 2 {
      assert (a + b)[|a + b| - 2] == b[|b| - 2];
    }
  }

  datatype Stepped = Stepped(s: Session, env: Env, stop: Outcome)

  /** NAME, once the byte is stored: the terminator moves `p` to the length buffer. */
  function NameByte(t: Session, b: byte, env: Env): (r: Stepped)
    requires Valid(t) && t.stage == Name
    ensures Valid(r.s) && r.stop == Continue && r.s.stage != Idle
  {
    if b == Nul then Stepped(t.(stage := Length, p := LengthBuffer, pos := 0), env, Continue)
    else Stepped(t, env, Continue)
  }

  /** LENGTH, once the byte is stored: the terminator sets `bytes_read`, `bytes_total` and
      `p` before `f_open`, so they stay set when the open fails and the stage stays LENGTH. */
  function LengthByte(t: Session, b: byte, env: Env): (r: Stepped)
    requires Valid(t) && t.stage == Length
    ensures Valid(r.s) && r.s.stage != Idle && (r.stop == Continue || r.stop == Error)
  {
    if b != Nul then Stepped(t, env, Continue)
    else
      var u := t.(read := 0, total := Atol(t.length), p := DataBuffer, pos := 0);
      var path := CString(u.name);
      if Succeeds(env) then
        Stepped(u.(stage := Data),
                Record(Consume(env), [OpenForWrite(path, true), ProgressShow(CopyingToSd, u.total)]),
                Continue)
      else
        Stepped(u, Record(Consume(env), [OpenForWrite(path, false), ProgressShow(ErrorCode, 1)]), Error)
  }

  /** DATA, once the byte is stored: count it, flush when the record is complete or the
      buffer is full, and finish when complete. Completion forces a flush, so it is only
      reached after a successful one. */
  function DataByte(t: Session, env: Env): (r: Stepped)
    requires Valid(t) && t.stage == Data && 1 <= t.pos
    ensures Valid(r.s) && r.stop != Overrun && (r.stop == Finish <==> r.s.stage == Idle)
  {
    var u := t.(read := Inc32(t.read));
    if u.read == u.total || u.pos == DataCapacity then
      var chunk := u.data[..u.pos];
      if Succeeds(env) then
        var w := u.(pos := 0);
        var e := Record(Consume(env), [FileWrite(chunk, true), ProgressUpdate(w.read)]);
        if w.read == w.total then Stepped(w.(stage := Idle), Record(e, Finale(CString(w.name))), Finish)
        else Stepped(w, e, Continue)
      else
        Stepped(u, Record(Consume(env), [FileWrite(chunk, false)]), Error)
    else
      Stepped(u, env, Continue)
  }

  /** One turn of the `while(stream.Get(byte))` loop: `*p++ = byte`, then the stage. */
  function Step(s: Session, b: byte, env: Env): (r: Stepped)
    requires Valid(s) && s.stage != Idle
    ensures r.stop != Overrun ==> Valid(r.s)
    ensures r.stop == Continue ==> r.s.stage != Idle
  {
    if s.pos == Capacity(s.p) then Stepped(s, env, Overrun)
    else
      var t := Put(s, [b]);
      match t.stage
      case Name => NameByte(t, b, env)
      case Length => LengthByte(t, b, env)
      case Data => DataByte(t, env)
  }

  /** A turn that only stores and counts its byte. */
  lemma QuietAccounted(env: Env, s: Session)
    requires Valid(s) && s.stage != Idle
    ensures Accounted(env, env, s, Continue)
  {
    assert env.log[|env.log|..] == [];
  }

  /** A turn whose foreign calls `events` all succeeded and did not end the call. */
  lemma BusyAccounted(env: Env, after: Env, s: Session, events: seq<Event>)
    requires Valid(s) && s.stage != Idle
    requires after.files == env.files && after.log == env.log + events
    requires WritesBounded(events) && FileClose !in events && NoWriteFailure(events)
    ensures Accounted(env, after, s, Continue)
  {
    assert after.log[|env.log|..] == events;
  }

  /** A turn that ended the call with `srError` after `events`. */
  lemma FailedAccounted(env: Env, after: Env, s: Session, events: seq<Event>)
    requires Valid(s) && after.files == env.files && after.log == env.log + events
    requires WritesBounded(events) && FileClose !in events && FailureEnds(events, s.stage)
    requires FailuresLast(events, Error)
    ensures Accounted(env, after, s, Error)
  {
    assert after.log[|env.log|..] == events;
  }

  /** The turn that completes a record: the last flush, then the completion calls. */
  lemma FinishedAccounted(env: Env, after: Env, s: Session, chunk: seq<byte>, n: int)
    requires Valid(s) && s.stage == Idle && 1 <= |chunk| <= DataCapacity
    requires after.files == env.files
    requires after.log == env.log + [FileWrite(chunk, true), ProgressUpdate(n)] + Finale(CString(s.name))
    ensures Accounted(env, after, s, Finish)
  {
    var events := [FileWrite(chunk, true), ProgressUpdate(n)] + Finale(CString(s.name));
    FinishedEvents(chunk, n, CString(s.name));
    assert after.log[|env.log|..] == events;
  }

  /** The calls of the turn that completes a record. */
  lemma FinishedEvents(chunk: seq<byte>, n: int, name: Path)
    requires 1 <= |chunk| <= DataCapacity
    ensures var events := [FileWrite(chunk, true), ProgressUpdate(n)] + Finale(name);
            WritesBounded(events) && NoWriteFailure(events) && LogEndsWith(events, Finale(name))
  {
    var events := [FileWrite(chunk, true), ProgressUpdate(n)] + Finale(name);
    assert events[|events| - 4..] == Finale(name);
  }

  lemma DataByteAccounted(t: Session, env: Env)
    requires Valid(t) && t.stage == Data && 1 <= t.pos
    ensures var r := DataByte(t, env); Accounted(env, r.env, r.s, r.stop)
  {
    var r := DataByte(t, env);
    var u := t.(read := Inc32(t.read));
    var chunk := u.data[..u.pos];
    if !(u.read == u.total || u.pos == DataCapacity) {
      QuietAccounted(env, r.s);
    } else if !Succeeds(env) {
      FailedAccounted(env, r.env, r.s, [FileWrite(chunk, false)]);
    } else if u.read == u.total {
      FinishedAccounted(env, r.env, r.s, chunk, u.read);
    } else {
      BusyAccounted(env, r.env, r.s, [FileWrite(chunk, true), ProgressUpdate(u.read)]);
    }
  }

  lemma LengthByteAccounted(t: Session, b: byte, env: Env)
    requires Valid(t) && t.stage == Length
    ensures var r := LengthByte(t, b, env); Accounted(env, r.env, r.s, r.stop)
  {
    var r := LengthByte(t, b, env);
    if b != Nul {
      QuietAccounted(env, r.s);
    } else {
      var path := CString(t.name);
      if Succeeds(env) {
        BusyAccounted(env, r.env, r.s, [OpenForWrite(path, true), ProgressShow(CopyingToSd, r.s.total)]);
      } else {
        FailedAccounted(env, r.env, r.s, [OpenForWrite(path, false), ProgressShow(ErrorCode, 1)]);
      }
    }
  }

  /** Every turn of the loop keeps `Accounted`. */
  lemma StepAccounted(s: Session, b: byte, env: Env)
    requires Valid(s) && s.stage != Idle
    ensures var r := Step(s, b, env); Accounted(env, r.env, r.s, r.stop)
  {
    if s.pos == Capacity(s.p) {
      assert Step(s, b, env) == Stepped(s, env, Overrun);
      assert env.log[|env.log|..] == [];
    } else {
      var t := Put(s, [b]);
      match t.stage
      case Name => QuietAccounted(env, NameByte(t, b, env).s);
      case Length => LengthByteAccounted(t, b, env);
      case Data => DataByteAccounted(t, env);
    }
  }

  /** The result of one call: the statics and the world afterwards, what it returns and how
      many bytes it took from the stream. */
  datatype Fed = Fed(s: Session, env: Env, outcome: Outcome, consumed: nat)

  /** The loop of `StreamData` over the bytes `input` holds, from a stage other than NONE.
      It reads until the input runs out (`srContinue`) or a byte ends the call. */
  function Run(s: Session, env: Env, input: seq<byte>): (r: Fed)
    requires Valid(s) && s.stage != Idle
    ensures r.outcome != Overrun ==> Valid(r.s)
    ensures r.consumed <= |input|
    ensures r.outcome == Continue ==> r.consumed == |input| && r.s.stage != Idle
    ensures r.outcome != Continue ==> 1 <= r.consumed
    decreases |input|
  {
    if input == [] then Fed(s, env, Continue, 0)
    else
      var st := Step(s, input[0], env);
      if st.stop == Continue then
        var r := Run(st.s, st.env, input[1..]);
        r.(consumed := r.consumed + 1)
      else
        Fed(st.s, st.env, st.stop, 1)
  }

  /** The loop, one byte in: a byte that does not end the call hands the rest of the input
      to the next turn. */
  lemma RunContinues(s: Session, env: Env, input: seq<byte>, st: Stepped)
    requires Valid(s) && s.stage != Idle && input != []
    requires st == Step(s, input[0], env) && st.stop == Continue
    ensures Run(s, env, input) == Run(st.s, st.env, input[1..]).(consumed := Run(st.s, st.env, input[1..]).consumed + 1)
  {
  }

  /** The loop, one byte in: a byte that ends the call ends it there. */
  lemma RunStops(s: Session, env: Env, input: seq<byte>, st: Stepped)
    requires Valid(s) && s.stage != Idle && input != []
    requires st == Step(s, input[0], env) && st.stop != Continue
    ensures Run(s, env, input) == Fed(st.s, st.env, st.stop, 1)
  {
  }

  /** The loop cannot take a byte that overruns its buffer unless the call overruns. */
  lemma RunFits(s: Session, env: Env, input: seq<byte>)
    requires Valid(s) && s.stage != Idle && input != []
    requires Run(s, env, input).outcome != Overrun
    ensures s.pos < Capacity(s.p)
  {
  }

  /** Part way through a call whose result is `f`: `taken` bytes are gone, and the loop
      over what is left, from statics `s` and world `env`, ends as `f` does. */
  predicate Remaining(s: Session, env: Env, input: seq<byte>, f: Fed, taken: nat)
    requires Valid(s) && s.stage != Idle
  {
    var r := Run(s, env, input);
    r.outcome == f.outcome && r.s == f.s && r.env == f.env && taken + r.consumed == f.consumed
  }

  /** A call starts its loop at NAME (or where the last call left off) with no byte taken. */
  lemma RemainingStart(s: Session, env: Env, input: seq<byte>)
    requires Valid(s)
    ensures Valid(Begin(s)) && Begin(s).stage != Idle
    ensures Remaining(Begin(s), env, input, Feed(s, env, input), 0)
  {
  }

  /** A loop that runs out of bytes returns `srContinue` with the statics and world it has. */
  lemma RemainingEmpty(s: Session, env: Env, f: Fed, taken: nat)
    requires Valid(s) && s.stage != Idle && Remaining(s, env, [], f, taken)
    ensures f == Fed(s, env, Continue, taken)
  {
  }

  /** One turn of the loop: the byte fits its buffer, and either the call ends here as `f`
      does, or what is left of the loop still ends as `f` does. */
  lemma RemainingStep(s: Session, env: Env, input: seq<byte>, f: Fed, taken: nat, st: Stepped)
    requires Valid(s) && s.stage != Idle && input != [] && Remaining(s, env, input, f, taken)
    requires f.outcome != Overrun && st == Step(s, input[0], env)
    ensures s.pos < Capacity(s.p)
    ensures st.stop != Continue ==> f == Fed(st.s, st.env, st.stop, taken + 1)
    ensures st.stop == Continue ==> Valid(st.s) && st.s.stage != Idle
    ensures st.stop == Continue ==> Remaining(st.s, st.env, input[1..], f, taken + 1)
  {
    RunFits(s, env, input);
    if st.stop == Continue {
      RunContinues(s, env, input, st);
    } else {
      RunStops(s, env, input, st);
    }
  }

  /** The whole loop keeps `Accounted`, whatever the input and the faults. */
  lemma {:induction false} RunAccounted(s: Session, env: Env, input: seq<byte>)
    requires Valid(s) && s.stage != Idle
    ensures var r := Run(s, env, input); Accounted(env, r.env, r.s, r.outcome)
    decreases |input|
  {
    if input != [] {
      var st := Step(s, input[0], env);
      StepAccounted(s, input[0], env);
      if st.stop == Continue {
        var r := Run(st.s, st.env, input[1..]);
        RunAccounted(st.s, st.env, input[1..]);
        AccountedChain(env, st.env, r.env, st.s, r.s, r.outcome);
      }
    }
  }

  /** One call of `StreamData`. */
  function Feed(s: Session, env: Env, input: seq<byte>): (r: Fed)
    requires Valid(s)
    ensures r.outcome != Overrun ==> Valid(r.s)
    ensures r.outcome == Continue ==> r.consumed == |input| && r.s.stage != Idle
  {
    Run(Begin(s), env, input)
  }

  /** The same bytes handed to `StreamData` over several calls, one chunk per call, up to
      the first call that returns something other than `srContinue`. */
  function Calls(s: Session, env: Env, chunks: seq<seq<byte>>): Fed
    requires Valid(s) && chunks != []
    decreases |chunks|
  {
    var f := Feed(s, env, chunks[0]);
    if f.outcome != Continue || |chunks| == 1 then f
    else
      var g := Calls(f.s, f.env, chunks[1..]);
      g.(consumed := f.consumed + g.consumed)
  }

  /** Reading `a + b` in one loop is reading `a`, then, if that did not end the call, `b`
      from where `a` left the statics and the world. */
  lemma {:induction false} RunAppend(s: Session, env: Env, a: seq<byte>, b: seq<byte>)
    requires Valid(s) && s.stage != Idle
    ensures var fa := Run(s, env, a);
            if fa.outcome == Continue then
              var fb := Run(fa.s, fa.env, b);
              Run(s, env, a + b) == fb.(consumed := |a| + fb.consumed)
            else
              Run(s, env, a + b) == fa
    decreases |a|
  {
    if a == [] {
      assert a + b == b;
    } else {
      assert (a + b)[0] == a[0];
      assert (a + b)[1..] == a[1..] + b;
      var st := Step(s, a[0], env);
      if st.stop == Continue {
        RunAppend(st.s, st.env, a[1..], b);
      }
    }
  }

  /** Splitting a byte sequence across any number of calls gives the same statics, the
      same world (file writes, progress, selection) and the same result as one call with
      all of it, and takes the same bytes from the stream. */
  lemma {:induction false} SplitInvariance(s: Session, env: Env, chunks: seq<seq<byte>>)
    requires Valid(s) && chunks != []
    ensures Calls(s, env, chunks) == Feed(s, env, Flatten(chunks))
    decreases |chunks|
  {
    var f := Feed(s, env, chunks[0]);
    var rest := Flatten(chunks[1..]);
    assert Flatten(chunks) == chunks[0] + rest;
    RunAppend(Begin(s), env, chunks[0], rest);
    if |chunks| == 1 {
      assert rest == [];
      assert chunks[0] + rest == chunks[0];
    } else if f.outcome == Continue {
      SplitInvariance(f.s, f.env, chunks[1..]);
      assert Begin(f.s) == f.s;
    }
  }
}
