/**
 * `MicroPythonBoard`: the port handle, the run rejecter, and every operation,
 * each proved to change the link and settle exactly as its reference function
 * in `Operations` says.
 */
module Board {
  import opened JsText
  import opened Protocol
  import opened Decoders
  import opened Chunking
  import opened Framer
  import opened Scripts
  import opened Runs
  import opened Operations

  class MicroPythonBoard {
    /** `this.port`: the device path last given to `open`. */
    var port: Option<string>
    /** `this.serial`. */
    var serial: Serial
    /** `this.reject_run`: the number of the run whose rejecter the board holds. */
    var rejectRun: Option<nat>
    /** Every promise `run` has returned, by number. */
    var runs: seq<RunState>
    /** The serial link, seen from the board. */
    var link: Link

    ghost predicate Valid()
      reads this
    {
      Runs.Valid(Slot(rejectRun, runs))
    }

    /** A board with no port; `device` is what the device will send once connected. */
    constructor(device: seq<string>)
      ensures Valid()
      ensures port == None && serial == NoSerial && rejectRun == None && runs == []
      ensures link == Link([], device, [])
    {
      port := None;
      serial := NoSerial;
      rejectRun := None;
      runs := [];
      link := Link([], device, []);
    }

    /** `open(path)`; `openFails` is whether the operating system refuses the port. */
    method Open(path: string, openFails: bool) returns (r: Outcome<()>)
      modifies this`port, this`serial
      ensures path == "" ==> r == Failed(Message("No device specified")) &&
                             port == old(port) && serial == old(serial)
      ensures path != "" ==> port == Some(path) && serial == Port(path, !openFails)
      ensures path != "" ==> r == (if openFails then Failed(OpenFailed) else Done(()))
    {
      if path == "" {
        return Failed(Message("No device specified"));
      }
      port := Some(path);
      if serial.Port? && serial.isOpen {
        serial := serial.(isOpen := false);
        serial := NoSerial;
      }
      serial := Port(path, false);
      if openFails {
        return Failed(OpenFailed);
      }
      serial := serial.(isOpen := true);
      return Done(());
    }

    /** `close()`: closes an open port; the handle stays. */
    method Close() returns (r: Outcome<()>)
      modifies this`serial
      ensures r == Done(())
      ensures serial == (if old(serial).Port? then old(serial).(isOpen := false) else old(serial))
    {
      if serial.Port? && serial.isOpen {
        serial := serial.(isOpen := false);
      }
      return Done(());
    }

    /** The 'readable' listener `read_until` installs: the next chunk, added to the
        buffer and handed to the consumer when it holds data. */
    method OnReadable(ghost l0: Link, consume: bool, n: nat, buff: string) returns (buff': string)
      requires n < |l0.inbox|
      requires link == Link(l0.written, l0.inbox[n..], l0.observed + Seen(l0.inbox[..n], consume))
      requires buff == Concat(l0.inbox[..n])
      modifies this`link
      ensures link == Link(l0.written, l0.inbox[n + 1..], l0.observed + Seen(l0.inbox[..n + 1], consume))
      ensures buff' == Concat(l0.inbox[..n + 1])
    {
      var o := link.inbox[0];
      ReadAdvance(l0.inbox, n, consume);
      buff' := buff;
      if o != "" {
        buff' := buff' + o;
      }
      link := Link(link.written, link.inbox[1..],
                   if o != "" && consume then link.observed + [o] else link.observed);
    }

    /** `read_until(ending, data_consumer)`: one chunk per 'readable' event until the
        buffer holds `ending`. */
    method ReadUntil(ending: string, consume: bool) returns (r: Outcome<string>)
      modifies this`link
      ensures old(serial).NoSerial? ==> r == Failed(TypeError) && link == old(link)
      ensures old(serial).Port? ==>
        link == Read(old(link), ending, consume).0 && r == Lift(Read(old(link), ending, consume).1)
    {
      if serial.NoSerial? {
        return Failed(TypeError);
      }
      ghost var l0 := link;
      var buff := "";
      var n := 0;
      while link.inbox != []
        invariant 0 <= n <= |l0.inbox|
        invariant link == Link(l0.written, l0.inbox[n..], l0.observed + Seen(l0.inbox[..n], consume))
        invariant buff == Concat(l0.inbox[..n])
        invariant forall j :: 1 <= j <= n ==> !Contains(Concat(l0.inbox[..j]), ending)
        decreases |link.inbox|
      {
        buff := OnReadable(l0, consume, n, buff);
        n := n + 1;
        if Contains(buff, ending) {
          ReadFound(l0, ending, consume, n);
          return Done(buff);
        }
      }
      ReadExhausted(l0, ending, consume, n);
      return Blocked;
    }

    /** `write_and_read_until(cmd, expect, data_consumer)`: the command in slices of
        128 characters, then, if there is something to wait for, `read_until`. */
    method WriteAndReadUntil(cmd: string, until: string, consume: bool) returns (r: Outcome<string>)
      modifies this`link
      ensures (link, r) == Transact(old(serial), old(link), [Paced(cmd, until, consume)], 0)
    {
      if serial.NoSerial? {
        return Failed(TypeError);
      }
      ghost var l0 := link;
      var i := 0;
      while i < |cmd|
        invariant 0 <= i && i % CommandChunkSize == 0
        invariant link == l0.(written := l0.written + Chunks(cmd[..Min(i, |cmd|)], CommandChunkSize))
        decreases |cmd| - i
      {
        var piece := Slice(cmd, i, i + CommandChunkSize);
        ChunksStep(cmd, i, CommandChunkSize);
        link := link.(written := link.written + [piece]);
        DivStep(i, CommandChunkSize);
        i := i + CommandChunkSize;
      }
      assert cmd[..Min(i, |cmd|)] == cmd;
      PlayOne(l0, Paced(cmd, until, consume));
      if until != "" {
        r := ReadUntil(until, consume);
      } else {
        r := Done("");
      }
    }

    method EnterRawRepl() returns (r: Outcome<string>)
      modifies this`link
      ensures (link, r) == Transact(old(serial), old(link), EnterScript(), 0)
    {
      r := WriteAndReadUntil(CtrlA, RawBanner, false);
    }

    method ExitRawRepl() returns (r: Outcome<string>)
      modifies this`link
      ensures (link, r) == Transact(old(serial), old(link), ExitScript(), 0)
    {
      r := WriteAndReadUntil(CtrlB, FriendlyPrompt, false);
    }

    method ExecRaw(cmd: string, consume: bool) returns (r: Outcome<string>)
      modifies this`link
      ensures (link, r) == Transact(old(serial), old(link), ExecScript(cmd, consume), 1)
    {
      ExecSplit(serial, link, cmd, consume);
      var w := WriteAndReadUntil(cmd, "", false);
      if !w.Done? {
        return w;
      }
      r := WriteAndReadUntil(CtrlD, ExecEnd, consume);
    }

    /** Enter the raw REPL, execute `cmd`, leave; `exec` is the exec output. */
    method RawCommand(cmd: string, consume: bool) returns (exec: Outcome<string>, exit: Outcome<string>)
      modifies this`link
      ensures (link, exec) == Transact(old(serial), old(link), CommandScript(cmd, consume), 2)
      ensures (link, exit) == Transact(old(serial), old(link), CommandScript(cmd, consume), 3)
    {
      CommandSplit(serial, link, cmd, consume, 2);
      CommandSplit(serial, link, cmd, consume, 3);
      var e := EnterRawRepl();
      if !e.Done? {
        return e, e;
      }
      exec := ExecRaw(cmd, consume);
      if !exec.Done? {
        return exec, exec;
      }
      exit := ExitRawRepl();
      if !exit.Done? {
        exec := exit;
      }
    }

    method FsExists(path: string) returns (r: Outcome<bool>)
      modifies this`link
      ensures (link, r) == Operations.FsExists(old(serial), old(link), path)
    {
      var out, _ := RawCommand(ExistsCommand(path), false);
      r := out.Map(ExistsFlag);
    }

    method FsLs(path: string) returns (r: Outcome<string>)
      modifies this`link
      ensures (link, r) == Operations.FsLs(old(serial), old(link), path)
    {
      var out, _ := RawCommand(LsCommand(path), false);
      r := out.Map(ListingText);
    }

    method FsIls(path: string) returns (r: Outcome<string>)
      modifies this`link
      ensures (link, r) == Operations.FsIls(old(serial), old(link), path)
    {
      var out, _ := RawCommand(IlsCommand(path), false);
      r := out.Map(IlsText);
    }

    method FsCatBinary(path: string) returns (r: Outcome<seq<JsNumber>>)
      modifies this`link
      ensures (link, r) == Operations.FsCatBinary(old(serial), old(link), path)
    {
      if path == "" {
        return Failed(Message("Path to file was not specified"));
      }
      var out, _ := RawCommand(CatBinaryCommand(path), false);
      r := out.Map(o => ExtractBytes(o, 2, 4));
    }

    method FsCat(path: string) returns (r: Outcome<string>)
      modifies this`link
      ensures (link, r) == Operations.FsCat(old(serial), old(link), path)
    {
      if path == "" {
        return Failed(Message("Path to file was not specified"));
      }
      var out, _ := RawCommand(CatCommand(path), false);
      r := out.Map(CatText);
    }

    method FsMkdir(path: string) returns (r: Outcome<string>)
      modifies this`link
      ensures (link, r) == Operations.FsMkdir(old(serial), old(link), path)
    {
      if path == "" {
        return Failed(NoReason);
      }
      var ignored;
      r, ignored := RawCommand(MkdirCommand(path), false);
    }

    method FsRmdir(path: string) returns (r: Outcome<string>)
      modifies this`link
      ensures (link, r) == Operations.FsRmdir(old(serial), old(link), path)
    {
      if path == "" {
        return Failed(NoReason);
      }
      var ignored;
      r, ignored := RawCommand(RmdirCommand(path), false);
    }

    method FsRm(path: string) returns (r: Outcome<string>)
      modifies this`link
      ensures (link, r) == Operations.FsRm(old(serial), old(link), path)
    {
      if path == "" {
        return Failed(NoReason);
      }
      var ignored;
      ignored, r := RawCommand(RmCommand(path), false);
    }

    method FsRename(from: string, to: string) returns (r: Outcome<string>)
      modifies this`link
      ensures (link, r) == Operations.FsRename(old(serial), old(link), from, to)
    {
      if from == "" || to == "" {
        return Failed(NoReason);
      }
      var ignored;
      ignored, r := RawCommand(RenameCommand(from, to), false);
    }

    /** `execfile(path)`; `content` is the text of the file at `path`. */
    method Execfile(path: string, content: string, consume: bool) returns (r: Outcome<string>)
      modifies this`link
      ensures (link, r) == Operations.Execfile(old(serial), old(link), path, content, consume)
    {
      if path == "" {
        return Failed(NoReason);
      }
      var ignored;
      r, ignored := RawCommand(content, consume);
    }

    /** `eval(k)`: the text written as it is, without waiting for anything. */
    method Eval(k: string) returns (r: Outcome<()>)
      modifies this`link
      ensures (link, r) == Operations.Eval(old(serial), old(link), k)
    {
      PlayOne(link, Direct(k));
      if serial.NoSerial? {
        return Failed(TypeError);
      }
      link := link.(written := link.written + [k]);
      return Done(());
    }

    /** Reject the run whose rejecter the board holds, and let it go. */
    method RejectRun(reason: string)
      requires Valid()
      modifies this`rejectRun, this`runs
      ensures Valid()
      ensures Slot(rejectRun, runs) == Cancel(Slot(old(rejectRun), old(runs)), reason)
    {
      if rejectRun.Some? {
        var i := rejectRun.value;
        if runs[i].Pending? {
          runs := runs[i := Rejected(Message(reason))];
        }
        rejectRun := None;
      }
    }

    /** `run(code, data_consumer)`: returns the number of the promise handed out. */
    method Run(code: string, consume: bool) returns (id: nat)
      requires Valid()
      modifies this`link, this`rejectRun, this`runs
      ensures Valid()
      ensures id == |old(runs)|
      ensures link == RunBody(old(serial), old(link), code, consume).0
      ensures Slot(rejectRun, runs) ==
        RunWith(Slot(old(rejectRun), old(runs)), RunBody(old(serial), old(link), code, consume).1)
    {
      RejectRun("re-run");
      id := |runs|;
      runs := runs + [Pending];
      rejectRun := Some(id);
      var out, _ := RawCommand(OrComment(code), consume);
      match out
      case Done(v) =>
        runs := runs[id := Resolved(v)];
      case Failed(e) =>
        runs := runs[id := Rejected(e)];
        rejectRun := None;
      case Blocked =>
    }

    method Stop() returns (r: Outcome<()>)
      requires Valid()
      modifies this`link, this`rejectRun, this`runs
      ensures Valid()
      ensures Slot(rejectRun, runs) == Cancel(Slot(old(rejectRun), old(runs)), "pre stop")
      ensures (link, r) == Operations.Stop(old(serial), old(link))
    {
      RejectRun("pre stop");
      PlayOne(link, Direct(CtrlC));
      if serial.NoSerial? {
        return Failed(TypeError);
      }
      link := link.(written := link.written + [CtrlC]);
      return Done(());
    }

    method Reset() returns (r: Outcome<()>)
      requires Valid()
      modifies this`link, this`rejectRun, this`runs
      ensures Valid()
      ensures Slot(rejectRun, runs) == Cancel(Slot(old(rejectRun), old(runs)), "pre reset")
      ensures (link, r) == Operations.Reset(old(serial), old(link))
    {
      RejectRun("pre reset");
      PlayAppend(link, [Direct(CtrlC)], [Direct(CtrlD)]);
      PlayOne(link, Direct(CtrlC));
      PlayOne(link.(written := link.written + [CtrlC]), Direct(CtrlD));
      if serial.NoSerial? {
        return Failed(TypeError);
      }
      link := link.(written := link.written + [CtrlC]);
      link := link.(written := link.written + [CtrlD]);
      return Done(());
    }

    /** `get_prompt()`: `stop`, then ask for the friendly prompt. */
    method GetPrompt() returns (r: Outcome<string>)
      requires Valid()
      modifies this`link, this`rejectRun, this`runs
      ensures Valid()
      ensures Slot(rejectRun, runs) == Cancel(Slot(old(rejectRun), old(runs)), "pre stop")
      ensures (link, r) == Operations.GetPrompt(old(serial), old(link))
    {
      ghost var l0 := link;
      PlayAppend(l0, StopScript(), [Paced(PromptRequest, FriendlyPrompt, false)]);
      PlayOne(l0, Direct(CtrlC));
      var stopped := Stop();
      if stopped.Failed? {
        return Failed(stopped.error);
      }
      PlayOne(link, Paced(PromptRequest, FriendlyPrompt, false));
      r := WriteAndReadUntil(PromptRequest, FriendlyPrompt, false);
    }

    /** One pass of the upload loop: the exec of the slice at byte offset `i` (slice
        number `k`), then its progress report when there is a consumer.  `hs` holds
        what the upload has played after each number of slices and `runs` what
        playing each of them gives; `lines` and `notes` are the execs and the
        reports of all slices. */
    method SendSlice(ghost l0: Link, ghost hs: seq<seq<Step>>, ghost runs: seq<(Link, Option<seq<string>>)>,
                     ghost lines: seq<string>, ghost notes: seq<string>,
                     content: seq<Byte>, consume: bool, ghost k: nat, i: nat)
      returns (x: Outcome<string>)
      requires serial.Port? && i < |content| && i == UploadChunkSize * k
      requires UploadPlan(content, lines, notes)
      requires k + 1 < |hs| == |runs| && k < |lines|
      requires forall j {:trigger Play(l0, hs[j])} :: 0 <= j < |hs| ==> runs[j] == Play(l0, hs[j])
      requires hs[k + 1] == hs[k] + SliceGroup(lines, notes, consume, k)
      requires runs[k].1.Some? && link == runs[k].0
      modifies this`link
      ensures x.Done? || x.Blocked?
      ensures link == runs[k + 1].0 && (x.Done? <==> runs[k + 1].1.Some?)
      ensures x.Done? ==> Concat(runs[k + 1].1.value) == Concat(runs[k].1.value) + x.value
    {
      PlanAt(content, lines, notes, k);
      var line := ChunkLine(Slice(content, i, i + UploadChunkSize));
      SliceStep(serial, l0, hs, runs, lines, notes, consume, k);
      x := ExecRaw(line, false);
      if x.Done? && consume {
        link := link.(observed := link.observed + [ProgressNote(i, |content|)]);
      }
    }

    /** The upload loop over all slices of `content`; `at` is how many heads it got
        through before a read never settled. */
    method SendSlices(ghost l0: Link, ghost hs: seq<seq<Step>>, ghost runs: seq<(Link, Option<seq<string>>)>,
                      ghost lines: seq<string>, ghost notes: seq<string>, content: seq<Byte>, consume: bool)
      returns (r: Outcome<string>, ghost at: nat)
      requires serial.Port?
      requires UploadPlan(content, lines, notes)
      requires |hs| == |lines| + 1 && |runs| == |hs|
      requires forall j {:trigger Play(l0, hs[j])} :: 0 <= j < |hs| ==> runs[j] == Play(l0, hs[j])
      requires forall j {:trigger SliceGroup(lines, notes, consume, j)} :: 0 <= j < |lines| ==>
        hs[j + 1] == hs[j] + SliceGroup(lines, notes, consume, j)
      requires runs[0].1.Some? && link == runs[0].0
      modifies this`link
      ensures r.Done? || r.Blocked?
      ensures at < |hs| && link == runs[at].0
      ensures r.Blocked? ==> runs[at].1.None?
      ensures r.Done? ==>
        at == |lines| && runs[at].1.Some? && Concat(runs[at].1.value) == Concat(runs[0].1.value) + r.value
    {
      ghost var base := Concat(runs[0].1.value);
      var out := "";
      var i := 0;
      ghost var k := 0;
      assert base + out == base;
      while i < |content|
        invariant k <= |lines| && i == UploadChunkSize * k
        invariant runs[k].1.Some? && link == runs[k].0
        invariant Concat(runs[k].1.value) == base + out
        decreases |content| - i
      {
        ChunkIndex(content, UploadChunkSize, k);
        var x := SendSlice(l0, hs, runs, lines, notes, content, consume, k, i);
        if !x.Done? {
          return Blocked, k + 1;
        }
        AppendAssoc(base, out, x.value);
        out := out + x.value;
        MulStep(UploadChunkSize, k + 1);
        i := i + UploadChunkSize;
        k := k + 1;
      }
      ChunkIndex(content, UploadChunkSize, k);
      r, at := Done(out), k;
    }

    /** The loop `fs_put` and `fs_save` share: enter, open the destination, one exec
        per 48-byte slice with a progress report after each, close, exit; the result
        is everything those calls read, in order. */
    method Upload(dest: string, content: seq<Byte>, consume: bool) returns (r: Outcome<string>)
      modifies this`link
      ensures (link, r) == Operations.Upload(old(serial), old(link), dest, content, consume)
    {
      if serial.NoSerial? {
        return Failed(TypeError);
      }
      UploadHeadsStep(dest, content, consume);
      UploadHeadsShape(dest, content, consume);
      UploadPlanHolds(content);
      r := UploadSteps(link, UploadScript(dest, content, consume), UploadHeads(dest, content, consume),
                       ChunkLines(Chunks(content, UploadChunkSize)), ProgressNotes(|content|),
                       dest, content, consume);
    }

    /** The calls of `Upload` once the port is known, against the script `u` they
        play and its heads `hs` after each number of slices. */
    method UploadSteps(ghost l0: Link, ghost u: seq<Step>, ghost hs: seq<seq<Step>>,
                       ghost lines: seq<string>, ghost notes: seq<string>,
                       dest: string, content: seq<Byte>, consume: bool)
      returns (r: Outcome<string>)
      requires serial.Port? && link == l0
      requires UploadPlan(content, lines, notes)
      requires |hs| == |lines| + 1
      requires hs[0] == EnterScript() + ExecScript(OpenLine(dest), false)
      requires forall j {:trigger SliceGroup(lines, notes, consume, j)} :: 0 <= j < |lines| ==>
        hs[j + 1] == hs[j] + SliceGroup(lines, notes, consume, j)
      requires forall j :: 0 <= j < |hs| ==> IsPrefix(hs[j], u)
      requires IsPrefix(EnterScript(), u)
      requires u == hs[|lines|] + ExecScript(CloseLine, false) + ExitScript()
      modifies this`link
      ensures link == Play(l0, u).0
      ensures r == if Play(l0, u).1.None? then Blocked else Done(Concat(Play(l0, u).1.value))
    {
      ExtendOne(serial, l0, [], EnterScript()[0]);
      assert [] + [EnterScript()[0]] == EnterScript();
      var entered := EnterRawRepl();
      if !entered.Done? {
        PlayBlockedPrefix(l0, EnterScript(), u);
        return entered;
      }
      ExtendExec(serial, l0, EnterScript(), OpenLine(dest), false);
      var began := ExecRaw(OpenLine(dest), false);
      if !began.Done? {
        PlayBlockedPrefix(l0, hs[0], u);
        return began;
      }
      assert Concat(Play(l0, EnterScript()).1.value) == [] + entered.value == entered.value;
      var out := entered.value + began.value;
      assert Concat(Play(l0, hs[0]).1.value) == out;
      ghost var runs := seq(|hs|, j requires 0 <= j < |hs| => Play(l0, hs[j]));
      var sent, at := SendSlices(l0, hs, runs, lines, notes, content, consume);
      assert runs[at] == Play(l0, hs[at]);
      if !sent.Done? {
        PlayBlockedPrefix(l0, hs[at], u);
        return sent;
      }
      out := out + sent.value;
      ghost var full := hs[|lines|];
      ExtendExec(serial, l0, full, CloseLine, false);
      var closed := ExecRaw(CloseLine, false);
      if !closed.Done? {
        PrefixAppend(full + ExecScript(CloseLine, false), full + ExecScript(CloseLine, false), ExitScript());
        PlayBlockedPrefix(l0, full + ExecScript(CloseLine, false), u);
        return closed;
      }
      out := out + closed.value;
      ExtendOne(serial, l0, full + ExecScript(CloseLine, false), ExitScript()[0]);
      assert full + ExecScript(CloseLine, false) + [ExitScript()[0]] == u;
      var exited := ExitRawRepl();
      if !exited.Done? {
        return exited;
      }
      out := out + exited.value;
      r := Done(out);
    }

    /** `fs_put(src, dest, data_consumer)`; `content` is the file at `src`. */
    method FsPut(src: string, dest: string, content: seq<Byte>, consume: bool) returns (r: Outcome<string>)
      modifies this`link
      ensures (link, r) == Operations.FsPut(old(serial), old(link), src, dest, content, consume)
    {
      if src == "" || dest == "" {
        return Failed(Message("Must specify source and destination paths"));
      }
      r := Upload(dest, content, consume);
    }

    /** `fs_save(content, dest, data_consumer)`; `content` is the UTF-8 encoding of the text. */
    method FsSave(content: seq<Byte>, dest: string, consume: bool) returns (r: Outcome<string>)
      modifies this`link
      ensures (link, r) == Operations.FsSave(old(serial), old(link), content, dest, consume)
    {
      if content == [] || dest == "" {
        return Failed(Message("Must specify content and destination path"));
      }
      r := Upload(dest, content, consume);
    }
  }
}
