/**
 * What each operation of the board does to the serial link and what its
 * promise settles with, as a function of the port handle and the link before
 * the call.  The methods of `MicroPythonBoard` are proved to do exactly this.
 */
module Operations {
  import opened JsText
  import opened Protocol
  import opened Decoders
  import opened Chunking
  import opened Framer
  import opened Scripts
  import opened Runs

  /** `this.serial`: `null` until `open` succeeds in creating a port. */
  datatype Serial = NoSerial | Port(path: string, isOpen: bool)

  /** Play a script on the port and settle with the result of step `i`; every use of
      a `null` port throws a TypeError before anything is written. */
  function Transact(s: Serial, l: Link, script: seq<Step>, i: nat): (res: (Link, Outcome<string>))
    requires i < |script|
    ensures s.NoSerial? ==> res == (l, Failed(TypeError))
    ensures s.Port? ==> res.0 == Play(l, script).0 && !res.1.Failed?
    ensures s.Port? ==> (res.1.Blocked? <==> Play(l, script).1.None?)
    ensures s.Port? && res.1.Done? ==> res.1.value == Play(l, script).1.value[i]
  {
    if s.NoSerial? then (l, Failed(TypeError))
    else
      match Play(l, script).1
      case None => (Play(l, script).0, Blocked)
      case Some(outs) => (Play(l, script).0, Done(outs[i]))
  }

  // ---------------------------------------------------------------------------
  // the operations

  function FsExists(s: Serial, l: Link, path: string): (Link, Outcome<bool>)
  {
    var (l', out) := Transact(s, l, CommandScript(ExistsCommand(path), false), 2);
    (l', out.Map(ExistsFlag))
  }

  function FsLs(s: Serial, l: Link, path: string): (Link, Outcome<string>)
  {
    var (l', out) := Transact(s, l, CommandScript(LsCommand(path), false), 2);
    (l', out.Map(ListingText))
  }

  function FsIls(s: Serial, l: Link, path: string): (Link, Outcome<string>)
  {
    var (l', out) := Transact(s, l, CommandScript(IlsCommand(path), false), 2);
    (l', out.Map(IlsText))
  }

  function FsCatBinary(s: Serial, l: Link, path: string): (Link, Outcome<seq<JsNumber>>)
  {
    if path == "" then (l, Failed(Message("Path to file was not specified")))
    else
      var (l', out) := Transact(s, l, CommandScript(CatBinaryCommand(path), false), 2);
      (l', out.Map(o => ExtractBytes(o, 2, 4)))
  }

  function FsCat(s: Serial, l: Link, path: string): (Link, Outcome<string>)
  {
    if path == "" then (l, Failed(Message("Path to file was not specified")))
    else
      var (l', out) := Transact(s, l, CommandScript(CatCommand(path), false), 2);
      (l', out.Map(CatText))
  }

  function FsMkdir(s: Serial, l: Link, path: string): (Link, Outcome<string>)
  {
    if path == "" then (l, Failed(NoReason))
    else Transact(s, l, CommandScript(MkdirCommand(path), false), 2)
  }

  function FsRmdir(s: Serial, l: Link, path: string): (Link, Outcome<string>)
  {
    if path == "" then (l, Failed(NoReason))
    else Transact(s, l, CommandScript(RmdirCommand(path), false), 2)
  }

  /** `fs_rm` settles with what `exit_raw_repl` read, not with the exec output. */
  function FsRm(s: Serial, l: Link, path: string): (Link, Outcome<string>)
  {
    if path == "" then (l, Failed(NoReason))
    else Transact(s, l, CommandScript(RmCommand(path), false), 3)
  }

  /** `fs_rename` settles with what `exit_raw_repl` read, not with the exec output. */
  function FsRename(s: Serial, l: Link, from: string, to: string): (Link, Outcome<string>)
  {
    if from == "" || to == "" then (l, Failed(NoReason))
    else Transact(s, l, CommandScript(RenameCommand(from, to), false), 3)
  }

  /** `execfile(filePath)` with `content` the text of that file. */
  function Execfile(s: Serial, l: Link, path: string, content: string, consume: bool)
    : (Link, Outcome<string>)
  {
    if path == "" then (l, Failed(NoReason))
    else Transact(s, l, CommandScript(content, consume), 2)
  }

  /** The body of `run`: what its promise would settle with, were it not preempted. */
  function RunBody(s: Serial, l: Link, code: string, consume: bool): (Link, Outcome<string>)
  {
    Transact(s, l, RunScript(code, consume), 2)
  }

  function Eval(s: Serial, l: Link, k: string): (Link, Outcome<()>)
  {
    var (l', out) := Transact(s, l, [Direct(k)], 0);
    (l', out.Map(_ => ()))
  }

  function Stop(s: Serial, l: Link): (Link, Outcome<()>)
  {
    var (l', out) := Transact(s, l, StopScript(), 0);
    (l', out.Map(_ => ()))
  }

  function Reset(s: Serial, l: Link): (Link, Outcome<()>)
  {
    var (l', out) := Transact(s, l, ResetScript(), 1);
    (l', out.Map(_ => ()))
  }

  function GetPrompt(s: Serial, l: Link): (Link, Outcome<string>)
  {
    Transact(s, l, PromptScript(), 1)
  }

  /** An upload settles with everything the enter, the execs and the exit read, in order. */
  function Upload(s: Serial, l: Link, dest: string, content: seq<Byte>, consume: bool)
    : (Link, Outcome<string>)
  {
    if s.NoSerial? then (l, Failed(TypeError))
    else
      var (l', outs) := Play(l, UploadScript(dest, content, consume));
      (l', if outs.None? then Blocked else Done(Concat(outs.value)))
  }

  /** `fs_put(src, dest)` with `content` the bytes of the file at `src`. */
  function FsPut(s: Serial, l: Link, src: string, dest: string, content: seq<Byte>, consume: bool)
    : (Link, Outcome<string>)
  {
    if src == "" || dest == "" then (l, Failed(Message("Must specify source and destination paths")))
    else Upload(s, l, dest, content, consume)
  }

  /** `fs_save(content, dest)` with `content` the UTF-8 bytes of the text. */
  function FsSave(s: Serial, l: Link, content: seq<Byte>, dest: string, consume: bool)
    : (Link, Outcome<string>)
  {
    if content == [] || dest == "" then (l, Failed(Message("Must specify content and destination path")))
    else Upload(s, l, dest, content, consume)
  }

  // ---------------------------------------------------------------------------
  // what each operation writes

  /** What one raw command writes: CTRL-A, `cmd` in 128-character slices, CTRL-D
      and CTRL-B. */
  function CommandWrites(cmd: string): seq<string>
  {
    [CtrlA] + Chunks(cmd, CommandChunkSize) + [CtrlD, CtrlB]
  }

  /** The link went from `l` to `l'` by writing exactly one raw command. */
  predicate Sent(l: Link, l': Link, cmd: string)
  {
    l'.written == l.written + CommandWrites(cmd)
  }

  /** A script fails exactly when there is no port, and then touches nothing; once
      it settles it has written exactly its writes. */
  lemma TransactWrites(s: Serial, l: Link, script: seq<Step>, i: nat, w: seq<string>)
    requires i < |script| && Writes(script) == w
    ensures var (l', r) := Transact(s, l, script, i);
      (r.Failed? <==> s.NoSerial?) && (r.Failed? ==> r == Failed(TypeError) && l' == l) &&
      (r.Done? ==> l'.written == l.written + w)
  {
    PlayWrites(l, script);
  }

  /** A raw command fails exactly when there is no port, and then touches nothing;
      once it settles it has written exactly the command. */
  lemma CommandSent(s: Serial, l: Link, cmd: string, consume: bool, i: nat)
    requires i == 2 || i == 3
    ensures var (l', r) := Transact(s, l, CommandScript(cmd, consume), i);
      (r.Failed? <==> s.NoSerial?) && (r.Failed? ==> r == Failed(TypeError) && l' == l) &&
      (r.Done? ==> Sent(l, l', cmd))
  {
    CommandTranscript(cmd, consume);
    TransactWrites(s, l, CommandScript(cmd, consume), i, CommandWrites(cmd));
  }

  lemma FsExistsWrites(s: Serial, l: Link, path: string)
    ensures var (l', r) := FsExists(s, l, path);
      (r.Failed? <==> s.NoSerial?) && (r.Failed? ==> r == Failed(TypeError) && l' == l) &&
      (r.Done? ==> Sent(l, l', ExistsCommand(path)))
  {
    CommandSent(s, l, ExistsCommand(path), false, 2);
  }

  lemma FsLsWrites(s: Serial, l: Link, path: string)
    ensures var (l', r) := FsLs(s, l, path);
      (r.Failed? <==> s.NoSerial?) && (r.Failed? ==> r == Failed(TypeError) && l' == l) &&
      (r.Done? ==> Sent(l, l', LsCommand(path)))
  {
    CommandSent(s, l, LsCommand(path), false, 2);
  }

  lemma FsIlsWrites(s: Serial, l: Link, path: string)
    ensures var (l', r) := FsIls(s, l, path);
      (r.Failed? <==> s.NoSerial?) && (r.Failed? ==> r == Failed(TypeError) && l' == l) &&
      (r.Done? ==> Sent(l, l', IlsCommand(path)))
  {
    CommandSent(s, l, IlsCommand(path), false, 2);
  }

  /** An empty path is refused before the port is touched. */
  lemma FsCatBinaryWrites(s: Serial, l: Link, path: string)
    ensures var (l', r) := FsCatBinary(s, l, path);
      (path == "" ==> l' == l && r == Failed(Message("Path to file was not specified"))) &&
      (path != "" ==> (r.Failed? <==> s.NoSerial?) && (r.Failed? ==> r == Failed(TypeError) && l' == l) &&
                      (r.Done? ==> Sent(l, l', CatBinaryCommand(path))))
  {
    CommandSent(s, l, CatBinaryCommand(path), false, 2);
  }

  lemma FsCatWrites(s: Serial, l: Link, path: string)
    ensures var (l', r) := FsCat(s, l, path);
      (path == "" ==> l' == l && r == Failed(Message("Path to file was not specified"))) &&
      (path != "" ==> (r.Failed? <==> s.NoSerial?) && (r.Failed? ==> r == Failed(TypeError) && l' == l) &&
                      (r.Done? ==> Sent(l, l', CatCommand(path))))
  {
    CommandSent(s, l, CatCommand(path), false, 2);
  }

  /** `fs_mkdir`, `fs_rmdir` and `fs_rm` reject an empty path with no reason. */
  lemma FsMkdirWrites(s: Serial, l: Link, path: string)
    ensures var (l', r) := FsMkdir(s, l, path);
      (path == "" ==> l' == l && r == Failed(NoReason)) &&
      (path != "" ==> (r.Failed? <==> s.NoSerial?) && (r.Failed? ==> r == Failed(TypeError) && l' == l) &&
                      (r.Done? ==> Sent(l, l', MkdirCommand(path))))
  {
    CommandSent(s, l, MkdirCommand(path), false, 2);
  }

  lemma FsRmdirWrites(s: Serial, l: Link, path: string)
    ensures var (l', r) := FsRmdir(s, l, path);
      (path == "" ==> l' == l && r == Failed(NoReason)) &&
      (path != "" ==> (r.Failed? <==> s.NoSerial?) && (r.Failed? ==> r == Failed(TypeError) && l' == l) &&
                      (r.Done? ==> Sent(l, l', RmdirCommand(path))))
  {
    CommandSent(s, l, RmdirCommand(path), false, 2);
  }

  lemma FsRmWrites(s: Serial, l: Link, path: string)
    ensures var (l', r) := FsRm(s, l, path);
      (path == "" ==> l' == l && r == Failed(NoReason)) &&
      (path != "" ==> (r.Failed? <==> s.NoSerial?) && (r.Failed? ==> r == Failed(TypeError) && l' == l) &&
                      (r.Done? ==> Sent(l, l', RmCommand(path))))
  {
    CommandSent(s, l, RmCommand(path), false, 3);
  }

  /** `fs_rename` needs both names. */
  lemma FsRenameWrites(s: Serial, l: Link, from: string, to: string)
    ensures var (l', r) := FsRename(s, l, from, to);
      (from == "" || to == "" ==> l' == l && r == Failed(NoReason)) &&
      (from != "" && to != "" ==>
        (r.Failed? <==> s.NoSerial?) && (r.Failed? ==> r == Failed(TypeError) && l' == l) &&
        (r.Done? ==> Sent(l, l', RenameCommand(from, to))))
  {
    CommandSent(s, l, RenameCommand(from, to), false, 3);
  }

  /** `execfile` sends the text of the file as it is. */
  lemma ExecfileWrites(s: Serial, l: Link, path: string, content: string, consume: bool)
    ensures var (l', r) := Execfile(s, l, path, content, consume);
      (path == "" ==> l' == l && r == Failed(NoReason)) &&
      (path != "" ==> (r.Failed? <==> s.NoSerial?) && (r.Failed? ==> r == Failed(TypeError) && l' == l) &&
                      (r.Done? ==> Sent(l, l', content)))
  {
    CommandSent(s, l, content, consume, 2);
  }

  /** `run` sends its code, or `#` for none. */
  lemma RunBodyWrites(s: Serial, l: Link, code: string, consume: bool)
    ensures var (l', r) := RunBody(s, l, code, consume);
      (r.Failed? <==> s.NoSerial?) && (r.Failed? ==> r == Failed(TypeError) && l' == l) &&
      (r.Done? ==> Sent(l, l', OrComment(code)))
  {
    CommandSent(s, l, OrComment(code), consume, 2);
  }

  /** `eval(k)` writes `k` and nothing else, and settles at once. */
  lemma EvalWrites(s: Serial, l: Link, k: string)
    ensures s.NoSerial? ==> Eval(s, l, k) == (l, Failed(TypeError))
    ensures s.Port? ==> Eval(s, l, k) == (l.(written := l.written + [k]), Done(()))
  {
    PlayOne(l, Direct(k));
  }

  /** `stop` writes CTRL-C and settles at once. */
  lemma StopWrites(s: Serial, l: Link)
    ensures s.NoSerial? ==> Stop(s, l) == (l, Failed(TypeError))
    ensures s.Port? ==> Stop(s, l) == (l.(written := l.written + [CtrlC]), Done(()))
  {
    PlayOne(l, Direct(CtrlC));
  }

  /** `reset` writes CTRL-C, then CTRL-D, and settles at once. */
  lemma ResetWrites(s: Serial, l: Link)
    ensures s.NoSerial? ==> Reset(s, l) == (l, Failed(TypeError))
    ensures s.Port? ==> Reset(s, l) == (l.(written := l.written + [CtrlC, CtrlD]), Done(()))
  {
    if s.Port? {
      PlayWithoutReads(l, ResetScript());
      PlayWrites(l, ResetScript());
      ResetTranscript();
    }
  }

  /** `get_prompt` writes CTRL-C, then `\r\x03\x02`, and nothing else. */
  lemma GetPromptWrites(s: Serial, l: Link)
    ensures var (l', r) := GetPrompt(s, l);
      (r.Failed? <==> s.NoSerial?) && (r.Failed? ==> r == Failed(TypeError) && l' == l) &&
      (r.Done? ==> l'.written == l.written + [CtrlC, PromptRequest])
  {
    PromptTranscript();
    TransactWrites(s, l, PromptScript(), 1, [CtrlC, PromptRequest]);
  }

  /** An upload fails exactly when there is no port; otherwise it only appends to
      what was written. */
  lemma UploadFails(s: Serial, l: Link, dest: string, content: seq<Byte>, consume: bool)
    ensures var (l', r) := Upload(s, l, dest, content, consume);
      (r.Failed? <==> s.NoSerial?) && (r.Failed? ==> r == Failed(TypeError) && l' == l) &&
      IsPrefix(l.written, l'.written)
  {
    PlayWrites(l, UploadScript(dest, content, consume));
  }

  /** `fs_put` needs both paths; then it is the upload. */
  lemma FsPutWrites(s: Serial, l: Link, src: string, dest: string, content: seq<Byte>, consume: bool)
    ensures var (l', r) := FsPut(s, l, src, dest, content, consume);
      (src == "" || dest == "" ==> l' == l && r == Failed(Message("Must specify source and destination paths"))) &&
      (src != "" && dest != "" ==>
        (r.Failed? <==> s.NoSerial?) &&
        (r.Done? ==> l'.written == l.written + Writes(UploadScript(dest, content, consume))))
  {
    UploadFails(s, l, dest, content, consume);
    if s.Port? {
      PlayWrites(l, UploadScript(dest, content, consume));
    }
  }

  /** `fs_save` needs content and a path; then it is the upload. */
  lemma FsSaveWrites(s: Serial, l: Link, content: seq<Byte>, dest: string, consume: bool)
    ensures var (l', r) := FsSave(s, l, content, dest, consume);
      (content == [] || dest == "" ==> l' == l && r == Failed(Message("Must specify content and destination path"))) &&
      (content != [] && dest != "" ==>
        (r.Failed? <==> s.NoSerial?) &&
        (r.Done? ==> l'.written == l.written + Writes(UploadScript(dest, content, consume))))
  {
    UploadFails(s, l, dest, content, consume);
    if s.Port? {
      PlayWrites(l, UploadScript(dest, content, consume));
    }
  }

  // ---------------------------------------------------------------------------
  // composing the raw REPL primitives

  /** Three scripts of one, two and one steps played in a row, stopping at the
      first that does not resolve; `i` picks the output of the last step of the
      second (2) or of the third (3). */
  lemma TransactThree(s: Serial, l: Link, a: seq<Step>, b: seq<Step>, c: seq<Step>, i: nat)
    requires |a| == 1 && |b| == 2 && |c| == 1 && (i == 2 || i == 3)
    ensures
      var (l1, e) := Transact(s, l, a, 0);
      var (l2, x) := Transact(s, l1, b, 1);
      var (l3, y) := Transact(s, l2, c, 0);
      Transact(s, l, a + b + c, i) ==
        if !e.Done? then (l1, e)
        else if !x.Done? then (l2, x)
        else if !y.Done? then (l3, y)
        else (l3, if i == 2 then x else y)
  {
    if s.Port? {
      PlayAppend(l, a, b);
      PlayAppend(l, a + b, c);
      PlayAppend(Play(l, a).0, b, []);
    }
  }

  /** Entering, executing and leaving one after the other is the command script,
      stopping at the first primitive that does not resolve; `i` picks the exec
      output (2) or the exit output (3). */
  lemma CommandSplit(s: Serial, l: Link, cmd: string, consume: bool, i: nat)
    requires i == 2 || i == 3
    ensures
      var (l1, e) := Transact(s, l, EnterScript(), 0);
      var (l2, x) := Transact(s, l1, ExecScript(cmd, consume), 1);
      var (l3, y) := Transact(s, l2, ExitScript(), 0);
      Transact(s, l, CommandScript(cmd, consume), i) ==
        if !e.Done? then (l1, e)
        else if !x.Done? then (l2, x)
        else if !y.Done? then (l3, y)
        else (l3, if i == 2 then x else y)
  {
    TransactThree(s, l, EnterScript(), ExecScript(cmd, consume), ExitScript(), i);
  }

  /** `exec_raw`: the unpaced write, then the paced CTRL-D. */
  lemma ExecSplit(s: Serial, l: Link, cmd: string, consume: bool)
    ensures
      var (l1, w) := Transact(s, l, [Paced(cmd, "", false)], 0);
      var (l2, x) := Transact(s, l1, [Paced(CtrlD, ExecEnd, consume)], 0);
      Transact(s, l, ExecScript(cmd, consume), 1) == if !w.Done? then (l1, w) else (l2, x)
  {
    if s.Port? {
      PlayAppend(l, [Paced(cmd, "", false)], [Paced(CtrlD, ExecEnd, consume)]);
      PlayOne(l, Paced(cmd, "", false));
      PlayOne(Play(l, [Paced(cmd, "", false)]).0, Paced(CtrlD, ExecEnd, consume));
    }
  }

  // ---------------------------------------------------------------------------
  // against a device that answers as the raw REPL does

  lemma ContainsSelf(s: string)
    ensures Contains(s, s)
  {
    assert OccursAt(s, s, 0);
    IndexOfSome(s, s, 0);
  }

  lemma ReplyEnds(m: string)
    ensures Contains(Reply(m), ExecEnd)
  {
    var r := Reply(m);
    assert r[|m| + 3..|m| + 5] == ExecEnd;
    assert OccursAt(r, ExecEnd, |m| + 3);
    IndexOfSome(r, ExecEnd, |m| + 3);
  }

  /** A read whose marker arrives in the first chunk takes exactly that chunk. */
  lemma ReadOneChunk(l: Link, ending: string, consume: bool)
    requires l.inbox != [] && l.inbox[0] != "" && Contains(l.inbox[0], ending)
    ensures Read(l, ending, consume) ==
      (l.(inbox := l.inbox[1..], observed := l.observed + (if consume then [l.inbox[0]] else [])),
       Some(l.inbox[0]))
  {
    var c := l.inbox[0];
    assert l.inbox[..1] == [c];
    assert Concat([c]) == c by {
      assert Concat([c]) == c + Concat([c][1..]);
      assert [c][1..] == [];
      assert c + [] == c;
    }
    assert ReadCountFrom(l.inbox, ending, 1) == Some(1);
    assert Delivered([c]) == [c] by {
      assert [c][1..] == [];
    }
    assert Seen(l.inbox[..1], consume) == (if consume then [c] else []);
  }

  /** A paced write answered by one chunk holding its marker. */
  lemma PacedOneChunk(l: Link, cmd: string, until: string, consume: bool)
    requires until != "" && l.inbox != [] && l.inbox[0] != "" && Contains(l.inbox[0], until)
    ensures RunStep(l, Paced(cmd, until, consume)) ==
      (Link(l.written + Chunks(cmd, CommandChunkSize), l.inbox[1..],
            l.observed + (if consume then [l.inbox[0]] else [])),
       Some(l.inbox[0]))
  {
    ReadOneChunk(l.(written := l.written + Chunks(cmd, CommandChunkSize)), until, consume);
  }

  /** One paced step answered by one chunk holding its marker, as a script. */
  lemma PacedOnDevice(s: Serial, l: Link, cmd: string, until: string, consume: bool)
    requires s.Port? && until != "" && l.inbox != [] && l.inbox[0] != "" && Contains(l.inbox[0], until)
    ensures Transact(s, l, [Paced(cmd, until, consume)], 0) ==
      (Link(l.written + Chunks(cmd, CommandChunkSize), l.inbox[1..],
            l.observed + (if consume then [l.inbox[0]] else [])),
       Done(l.inbox[0]))
  {
    PacedOneChunk(l, cmd, until, consume);
    PlayOne(l, Paced(cmd, until, consume));
  }

  /** `exec_raw` answered by the framed output in one chunk. */
  lemma ExecOnDevice(s: Serial, l: Link, cmd: string, consume: bool, m: string)
    requires s.Port? && l.inbox != [] && l.inbox[0] == Reply(m)
    ensures Transact(s, l, ExecScript(cmd, consume), 1) ==
      (Link(l.written + Chunks(cmd, CommandChunkSize) + [CtrlD], l.inbox[1..],
            l.observed + (if consume then [Reply(m)] else [])),
       Done(Reply(m)))
  {
    var l1 := l.(written := l.written + Chunks(cmd, CommandChunkSize));
    PlayOne(l, Paced(cmd, "", false));
    assert Transact(s, l, [Paced(cmd, "", false)], 0) == (l1, Done(""));
    ReplyEnds(m);
    ControlChunk(CtrlD);
    PacedOnDevice(s, l1, CtrlD, ExecEnd, consume);
    ExecSplit(s, l, cmd, consume);
  }

  /** Against a device that sends the banner, the framed output `OK<m>\x04\x04>`
      and the prompt, one chunk each, a command writes CTRL-A, the command in
      128-character slices, CTRL-D and CTRL-B, hands the framed output to the
      consumer, and its exec output is that framed output. */
  lemma CommandOnDevice(s: Serial, l: Link, cmd: string, consume: bool, m: string, rest: seq<string>)
    requires s.Port? && l.inbox == [RawBanner, Reply(m), FriendlyPrompt] + rest
    ensures Transact(s, l, CommandScript(cmd, consume), 2) ==
      (Link(l.written + [CtrlA] + Chunks(cmd, CommandChunkSize) + [CtrlD, CtrlB], rest,
            l.observed + (if consume then [Reply(m)] else [])),
       Done(Reply(m)))
    ensures Transact(s, l, CommandScript(cmd, consume), 3).1 == Done(FriendlyPrompt)
  {
    ContainsSelf(RawBanner);
    ContainsSelf(FriendlyPrompt);
    ControlChunk(CtrlA);
    ControlChunk(CtrlB);
    InboxOfThree(RawBanner, Reply(m), FriendlyPrompt, rest);
    PacedOnDevice(s, l, CtrlA, RawBanner, false);
    var l1 := Link(l.written + [CtrlA], l.inbox[1..], l.observed);
    ExecOnDevice(s, l1, cmd, consume, m);
    var l2 := Link(l1.written + Chunks(cmd, CommandChunkSize) + [CtrlD], [FriendlyPrompt] + rest,
                   l.observed + (if consume then [Reply(m)] else []));
    PacedOnDevice(s, l2, CtrlB, FriendlyPrompt, false);
    SnocTwo(l.written + [CtrlA] + Chunks(cmd, CommandChunkSize), CtrlD, CtrlB);
    assert l.inbox[0] == RawBanner && l.observed + [] == l.observed;
    assert EnterScript() == [Paced(CtrlA, RawBanner, false)];
    assert Transact(s, l, EnterScript(), 0) == (l1, Done(RawBanner));
    assert Transact(s, l1, ExecScript(cmd, consume), 1) == (l2, Done(Reply(m)));
    assert l2.inbox[0] == FriendlyPrompt && l2.observed + [] == l2.observed;
    assert ExitScript() == [Paced(CtrlB, FriendlyPrompt, false)];
    assert Transact(s, l2, ExitScript(), 0) ==
      (Link(l2.written + Chunks(CtrlB, CommandChunkSize), rest, l2.observed), Done(FriendlyPrompt));
    CommandSplit(s, l, cmd, consume, 2);
    CommandSplit(s, l, cmd, consume, 3);
  }

  /** The inbox of a command, one chunk at a time. */
  lemma InboxOfThree<T>(a: T, b: T, c: T, rest: seq<T>)
    ensures ([a, b, c] + rest)[0] == a && ([a, b, c] + rest)[1..] == [b, c] + rest
    ensures ([b, c] + rest)[0] == b && ([b, c] + rest)[1..] == [c] + rest
    ensures ([c] + rest)[0] == c && ([c] + rest)[1..] == rest
  {
  }

  lemma SnocTwo<T>(w: seq<T>, x: T, y: T)
    ensures w + [x] + [y] == w + [x, y]
  {
  }

  /** `fs_exists` is true exactly when the snippet printed `1` first. */
  lemma FsExistsOnDevice(s: Serial, l: Link, path: string, m: string, rest: seq<string>)
    requires s.Port? && l.inbox == [RawBanner, Reply(m), FriendlyPrompt] + rest
    ensures FsExists(s, l, path).1 == Done(|m| > 0 && m[0] == '1')
  {
    CommandOnDevice(s, l, ExistsCommand(path), false, m, rest);
    ExistsOfReply(m);
  }

  /** `fs_ls` hands `JSON.parse` the printed list with `'` turned into `"`. */
  lemma FsLsOnDevice(s: Serial, l: Link, path: string, m: string, rest: seq<string>)
    requires s.Port? && l.inbox == [RawBanner, Reply(m), FriendlyPrompt] + rest
    ensures FsLs(s, l, path).1 == Done(ReplaceChar(m, '\'', '"'))
  {
    CommandOnDevice(s, l, LsCommand(path), false, m, rest);
    ListingOfReply(m);
  }

  /** `fs_cat` returns the printed text with its line breaks fixed. */
  lemma FsCatOnDevice(s: Serial, l: Link, path: string, m: string, rest: seq<string>)
    requires s.Port? && path != "" && l.inbox == [RawBanner, Reply(m), FriendlyPrompt] + rest
    ensures FsCat(s, l, path).1 == Done(FixLineBreak(m))
  {
    CommandOnDevice(s, l, CatCommand(path), false, m, rest);
    CatOfReply(m);
  }

  /** `fs_cat_binary` returns the bytes of a non-empty file, each as a number. */
  lemma FsCatBinaryOnDevice(s: Serial, l: Link, path: string, b: seq<Byte>, rest: seq<string>)
    requires s.Port? && path != "" && |b| > 0
    requires l.inbox == [RawBanner, Reply(Join(Decimals(b), ",") + ","), FriendlyPrompt] + rest
    ensures FsCatBinary(s, l, path).1 == Done(AsNumbers(b))
  {
    CommandOnDevice(s, l, CatBinaryCommand(path), false, Join(Decimals(b), ",") + ",", rest);
    ExtractBytesRoundTrip(b);
  }

  /** `fs_rm` and `fs_rename` settle with the friendly prompt, whatever the
      snippet printed. */
  lemma FsRmOnDevice(s: Serial, l: Link, path: string, m: string, rest: seq<string>)
    requires s.Port? && path != "" && l.inbox == [RawBanner, Reply(m), FriendlyPrompt] + rest
    ensures FsRm(s, l, path).1 == Done(FriendlyPrompt)
  {
    CommandOnDevice(s, l, RmCommand(path), false, m, rest);
  }

  /** `run` with empty code executes `#`; its body settles with the framed output
      and hands the same text to the consumer. */
  lemma RunOnDevice(s: Serial, l: Link, code: string, m: string, rest: seq<string>)
    requires s.Port? && l.inbox == [RawBanner, Reply(m), FriendlyPrompt] + rest
    ensures RunBody(s, l, code, true) ==
      (Link(l.written + [CtrlA] + Chunks(OrComment(code), CommandChunkSize) + [CtrlD, CtrlB], rest,
            l.observed + [Reply(m)]),
       Done(Reply(m)))
  {
    CommandOnDevice(s, l, OrComment(code), true, m, rest);
  }

  /** A completed upload wrote exactly the writes of its script, and the lines it
      exec'd decode back to the content. */
  lemma UploadWrites(s: Serial, l: Link, dest: string, content: seq<Byte>, consume: bool)
    requires s.Port?
    ensures Upload(s, l, dest, content, consume).1.Done? ==>
      Upload(s, l, dest, content, consume).0.written == l.written + Writes(UploadScript(dest, content, consume))
    ensures DecodeUpload(Collect(UploadScript(dest, content, consume), ExecOf)) == Some(content)
  {
    PlayWrites(l, UploadScript(dest, content, consume));
    UploadScriptExecs(dest, content, consume);
  }

  // ---------------------------------------------------------------------------
  // a script played step by step (the loops of `fs_put` and `fs_save`)

  /** `read_until`'s outcome as the promise sees it. */
  function Lift(o: Option<string>): Outcome<string>
  {
    if o.None? then Blocked else Done(o.value)
  }

  lemma ConcatTwo(a: string, b: string)
    ensures Concat([a, b]) == a + b
  {
    assert [a, b][1..] == [b];
    assert [b][1..] == [];
    assert Concat([b]) == b + Concat([]);
    assert b + [] == b;
    assert Concat([a, b]) == a + Concat([b]);
  }

  /** A script that ran to completion, followed by one more step. */
  lemma ExtendOne(s: Serial, l: Link, pre: seq<Step>, st: Step)
    requires s.Port? && Play(l, pre).1.Some?
    ensures var (l', x) := Transact(s, Play(l, pre).0, [st], 0);
      Play(l, pre + [st]).0 == l' &&
      (x.Done? <==> Play(l, pre + [st]).1.Some?) &&
      (x.Done? ==> Concat(Play(l, pre + [st]).1.value) == Concat(Play(l, pre).1.value) + x.value)
  {
    PlaySnoc(l, pre, st);
    PlayOne(Play(l, pre).0, st);
    var o := RunStep(Play(l, pre).0, st).1;
    if o.Some? {
      ConcatSnoc(Play(l, pre).1.value, o.value);
    }
  }

  /** A script that ran to completion, followed by one `exec_raw`. */
  /** A progress report settles at once: it only adds its note to what the data
      consumer saw, and its empty result leaves the collected output as it was. */
  lemma PlayReport(l: Link, pre: seq<Step>, note: string)
    requires Play(l, pre).1.Some?
    ensures Play(l, pre + [Report(note)]).0 == Play(l, pre).0.(observed := Play(l, pre).0.observed + [note])
    ensures Play(l, pre + [Report(note)]).1.Some?
    ensures Concat(Play(l, pre + [Report(note)]).1.value) == Concat(Play(l, pre).1.value)
  {
    PlaySnoc(l, pre, Report(note));
    ConcatSnoc(Play(l, pre).1.value, "");
    assert Concat(Play(l, pre).1.value) + "" == Concat(Play(l, pre).1.value);
  }

  lemma ExtendExec(s: Serial, l: Link, pre: seq<Step>, cmd: string, consume: bool)
    requires s.Port? && Play(l, pre).1.Some?
    ensures var (l', x) := Transact(s, Play(l, pre).0, ExecScript(cmd, consume), 1);
      Play(l, pre + ExecScript(cmd, consume)).0 == l' &&
      (x.Done? <==> Play(l, pre + ExecScript(cmd, consume)).1.Some?) &&
      (x.Done? ==> Concat(Play(l, pre + ExecScript(cmd, consume)).1.value) ==
                   Concat(Play(l, pre).1.value) + x.value)
  {
    var lk := Play(l, pre).0;
    var e := ExecScript(cmd, consume);
    PlayAppend(l, pre, e);
    ExecOutputs(lk, cmd, consume);
    if Play(lk, e).1.Some? {
      ConcatAppend(Play(l, pre).1.value, Play(lk, e).1.value);
    }
  }

  /** One slice of an upload, given the plays `runs` of the step sequences `hs`:
      after the exec of its line, a slice that completes adds the exec output and,
      when there is a consumer, hands its note to it; one that does not leaves the
      link where the exec stopped. */
  lemma SliceStep(s: Serial, l0: Link, hs: seq<seq<Step>>, runs: seq<(Link, Option<seq<string>>)>,
                  lines: seq<string>, notes: seq<string>, consume: bool, k: nat)
    requires s.Port? && k + 1 < |hs| == |runs| && k < |lines| && k < |notes|
    requires forall j {:trigger Play(l0, hs[j])} :: 0 <= j < |hs| ==> runs[j] == Play(l0, hs[j])
    requires hs[k + 1] == hs[k] + SliceGroup(lines, notes, consume, k)
    requires runs[k].1.Some?
    ensures var (l', x) := Transact(s, runs[k].0, ExecScript(lines[k], false), 1);
      (x.Done? || x.Blocked?) &&
      (!x.Done? ==> runs[k + 1].0 == l' && runs[k + 1].1.None?) &&
      (x.Done? ==> runs[k + 1].1.Some? &&
                   Concat(runs[k + 1].1.value) == Concat(runs[k].1.value) + x.value &&
                   runs[k + 1].0 == (if consume then l'.(observed := l'.observed + [notes[k]]) else l'))
  {
    assert runs[k] == Play(l0, hs[k]) && runs[k + 1] == Play(l0, hs[k + 1]);
    var e := ExecScript(lines[k], false);
    ExtendExec(s, l0, hs[k], lines[k], false);
    if Play(l0, hs[k] + e).1.None? {
      PlayStuck(l0, hs[k] + e, SliceGroup(lines, notes, consume, k)[|e|..]);
      assert hs[k + 1] == hs[k] + e + SliceGroup(lines, notes, consume, k)[|e|..];
    } else if consume {
      assert hs[k + 1] == hs[k] + e + [Report(notes[k])];
      PlayReport(l0, hs[k] + e, notes[k]);
    } else {
      assert hs[k + 1] == hs[k] + e;
    }
  }

  /** An `exec_raw` that completes has read two things: nothing after the code,
      then the framed output. */
  lemma ExecOutputs(l: Link, cmd: string, consume: bool)
    ensures var outs := Play(l, ExecScript(cmd, consume)).1;
      outs.Some? ==> |outs.value| == 2 && Concat(outs.value) == outs.value[1]
  {
    var outs := Play(l, ExecScript(cmd, consume)).1;
    if outs.Some? {
      assert outs.value == [outs.value[0], outs.value[1]];
      assert outs.value[0] == "";
      ConcatTwo("", outs.value[1]);
    }
  }

  lemma PrefixAppend<T>(a: seq<T>, b: seq<T>, c: seq<T>)
    requires IsPrefix(a, b)
    ensures IsPrefix(a, b + c) && IsPrefix(a, a + c)
  {
    assert (b + c)[..|a|] == b[..|a|];
    assert (a + c)[..|a|] == a;
  }

  lemma PrefixTrans<T>(a: seq<T>, b: seq<T>, c: seq<T>)
    requires IsPrefix(a, b) && IsPrefix(b, c)
    ensures IsPrefix(a, c)
  {
    assert c[..|a|] == c[..|b|][..|a|];
  }

  lemma PrefixCons<T>(x: seq<T>, a: seq<T>, b: seq<T>)
    requires IsPrefix(a, b)
    ensures IsPrefix(x + a, x + b)
  {
    assert (x + b)[..|x + a|] == x + b[..|a|];
  }

  /** Once a step never settles, the steps after it do not matter. */
  lemma PlayBlockedPrefix(l: Link, a: seq<Step>, b: seq<Step>)
    requires IsPrefix(a, b) && Play(l, a).1.None?
    ensures Play(l, b) == Play(l, a)
  {
    assert b == a + b[|a|..];
    PlayAppend(l, a, b[|a|..]);
  }

  /** Once a step never settles, nothing played after it changes the outcome. */
  lemma PlayStuck(l: Link, a: seq<Step>, b: seq<Step>)
    requires Play(l, a).1.None?
    ensures Play(l, a + b) == Play(l, a)
  {
    PlayAppend(l, a, b);
  }

  /** The slice steps for `k` slices come first among those for more slices. */
  lemma {:induction false} SliceStepsPrefix(lines: seq<string>, notes: seq<string>, consume: bool,
                                            k: nat, k': nat)
    requires k <= k' <= |lines| && k' <= |notes|
    ensures IsPrefix(SliceSteps(lines, notes, consume, k), SliceSteps(lines, notes, consume, k'))
    decreases k' - k
  {
    if k < k' {
      SliceStepsPrefix(lines, notes, consume, k, k' - 1);
      PrefixAppend(SliceSteps(lines, notes, consume, k), SliceSteps(lines, notes, consume, k' - 1),
                   SliceGroup(lines, notes, consume, k' - 1));
    }
  }

  /** An upload up to (not including) its close exec, after `k` slices. */
  function UploadHead(dest: string, content: seq<Byte>, consume: bool, k: nat): seq<Step>
    requires k <= |Chunks(content, UploadChunkSize)|
  {
    ChunksCount(content, UploadChunkSize);
    EnterScript() + ExecScript(OpenLine(dest), false)
    + SliceSteps(ChunkLines(Chunks(content, UploadChunkSize)), ProgressNotes(|content|), consume, k)
  }

  /** The heads of an upload after 0, 1, ... slices, one per slice and one more. */
  ghost function UploadHeads(dest: string, content: seq<Byte>, consume: bool): (hs: seq<seq<Step>>)
    ensures |hs| == |Chunks(content, UploadChunkSize)| + 1
    ensures forall j :: 0 <= j < |hs| ==> hs[j] == UploadHead(dest, content, consume, j)
  {
    var n := |Chunks(content, UploadChunkSize)|;
    seq(n + 1, j requires 0 <= j <= n => UploadHead(dest, content, consume, j))
  }

  /** Each head is the one before it followed by the steps of one slice. */
  lemma UploadHeadsStep(dest: string, content: seq<Byte>, consume: bool)
    ensures |ProgressNotes(|content|)| == |Chunks(content, UploadChunkSize)|
    ensures forall j {:trigger SliceGroup(ChunkLines(Chunks(content, UploadChunkSize)),
                                          ProgressNotes(|content|), consume, j)} ::
      0 <= j < |Chunks(content, UploadChunkSize)| ==>
      UploadHeads(dest, content, consume)[j + 1] ==
      UploadHeads(dest, content, consume)[j]
      + SliceGroup(ChunkLines(Chunks(content, UploadChunkSize)), ProgressNotes(|content|), consume, j)
  {
    var cs := Chunks(content, UploadChunkSize);
    var lines, notes := ChunkLines(cs), ProgressNotes(|content|);
    var hs := UploadHeads(dest, content, consume);
    var front := EnterScript() + ExecScript(OpenLine(dest), false);
    ChunksCount(content, UploadChunkSize);
    forall j | 0 <= j < |cs|
      ensures hs[j + 1] == hs[j] + SliceGroup(lines, notes, consume, j)
    {
      UploadHeadStep(dest, content, consume, j);
    }
  }

  lemma UploadHeadStep(dest: string, content: seq<Byte>, consume: bool, j: nat)
    requires j < |Chunks(content, UploadChunkSize)|
    ensures |ProgressNotes(|content|)| == |Chunks(content, UploadChunkSize)|
    ensures UploadHead(dest, content, consume, j + 1) == UploadHead(dest, content, consume, j)
      + SliceGroup(ChunkLines(Chunks(content, UploadChunkSize)), ProgressNotes(|content|), consume, j)
  {
    ChunksCount(content, UploadChunkSize);
    var lines, notes := ChunkLines(Chunks(content, UploadChunkSize)), ProgressNotes(|content|);
    AppendAssoc(EnterScript() + ExecScript(OpenLine(dest), false), SliceSteps(lines, notes, consume, j),
      SliceGroup(lines, notes, consume, j));
  }

  /** An upload is its head after all slices, the close exec and the exit. */
  lemma UploadShape(dest: string, content: seq<Byte>, consume: bool)
    ensures var h := UploadHead(dest, content, consume, |Chunks(content, UploadChunkSize)|);
      UploadScript(dest, content, consume) == h + ExecScript(CloseLine, false) + ExitScript() &&
      IsPrefix(h, UploadScript(dest, content, consume)) &&
      IsPrefix(h + ExecScript(CloseLine, false), UploadScript(dest, content, consume))
  {
    var h := UploadHead(dest, content, consume, |Chunks(content, UploadChunkSize)|);
    ShapeOf(EnterScript() + ExecScript(OpenLine(dest), false), UploadSlices(content, consume),
            ExecScript(CloseLine, false), ExitScript());
  }

  lemma ShapeOf<T>(front: seq<T>, middle: seq<T>, close: seq<T>, exit: seq<T>)
    ensures var h := front + middle;
      IsPrefix(h, h + close + exit) && IsPrefix(h + close, h + close + exit)
  {
    var h := front + middle;
    PrefixAppend(h + close, h + close, exit);
    PrefixAppend(h, h, close + exit);
    assert h + close + exit == h + (close + exit);
  }

  /** Every head of the upload is a prefix of it. */
  lemma UploadHeadPrefix(dest: string, content: seq<Byte>, consume: bool, k: nat)
    requires k <= |Chunks(content, UploadChunkSize)|
    ensures IsPrefix(UploadHead(dest, content, consume, k), UploadScript(dest, content, consume))
  {
    var cs := Chunks(content, UploadChunkSize);
    var lines, notes := ChunkLines(cs), ProgressNotes(|content|);
    var n := |cs|;
    ChunksCount(content, UploadChunkSize);
    UploadShape(dest, content, consume);
    SliceStepsPrefix(lines, notes, consume, k, n);
    PrefixCons(EnterScript() + ExecScript(OpenLine(dest), false),
               SliceSteps(lines, notes, consume, k), SliceSteps(lines, notes, consume, n));
    PrefixTrans(UploadHead(dest, content, consume, k), UploadHead(dest, content, consume, n),
                UploadScript(dest, content, consume));
  }

  /** And so is the enter that starts it. */
  lemma UploadEnterPrefix(dest: string, content: seq<Byte>, consume: bool)
    ensures IsPrefix(EnterScript(), UploadScript(dest, content, consume))
  {
    var h := UploadHead(dest, content, consume, 0);
    UploadHeadPrefix(dest, content, consume, 0);
    assert h == EnterScript() + ExecScript(OpenLine(dest), false);
    PrefixAppend(EnterScript(), EnterScript(), ExecScript(OpenLine(dest), false));
    PrefixTrans(EnterScript(), h, UploadScript(dest, content, consume));
  }

  /** What the upload loop relies on about the heads: the first is the enter and
      the open, each is a prefix of the script, and the last is followed by the
      close exec and the exit. */
  lemma UploadHeadsShape(dest: string, content: seq<Byte>, consume: bool)
    ensures UploadHeads(dest, content, consume)[0] == EnterScript() + ExecScript(OpenLine(dest), false)
    ensures forall j :: 0 <= j < |UploadHeads(dest, content, consume)| ==>
      IsPrefix(UploadHeads(dest, content, consume)[j], UploadScript(dest, content, consume))
    ensures IsPrefix(EnterScript(), UploadScript(dest, content, consume))
    ensures UploadScript(dest, content, consume) ==
      UploadHeads(dest, content, consume)[|Chunks(content, UploadChunkSize)|]
      + ExecScript(CloseLine, false) + ExitScript()
  {
    var hs := UploadHeads(dest, content, consume);
    assert hs[0] == UploadHead(dest, content, consume, 0);
    forall j | 0 <= j < |hs|
      ensures IsPrefix(hs[j], UploadScript(dest, content, consume))
    {
      UploadHeadPrefix(dest, content, consume, j);
    }
    UploadEnterPrefix(dest, content, consume);
    UploadShape(dest, content, consume);
  }

  /** Slicing after dropping the first `n` elements. */
  lemma SliceShift<T>(s: seq<T>, n: nat, m: nat)
    requires n <= |s|
    ensures Slice(s[n..], m, m + n) == Slice(s, m + n, m + n + n)
  {
    var t := s[n..];
    if m + n < |s| {
      var hi := if m + n + n <= |s| then m + n + n else |s|;
      assert Slice(t, m, m + n) == t[m..hi - n];
      assert t[m..hi - n] == s[m + n..hi];
    }
  }

  /** Piece `k` of `Chunks(s, n)` is what `s.slice(n * k, n * k + n)` gives, and
      there is a piece `k` exactly when `n * k` is inside `s`. */
  lemma {:induction false} ChunkAt<T>(s: seq<T>, n: nat, k: nat)
    requires n > 0
    ensures k < |Chunks(s, n)| <==> n * k < |s|
    ensures k < |Chunks(s, n)| ==> Chunks(s, n)[k] == Slice(s, n * k, n * k + n)
    decreases |s|
  {
    if |s| <= n || k == 0 {
      ChunkAtFirst(s, n, k);
    } else {
      ChunkAt(s[n..], n, k - 1);
      MulStep(n, k);
      ChunkAtRest(s, n, k, n * (k - 1));
    }
  }

  /** The lines and notes of an upload, slice by slice: slice `j` starts at byte
      `48 * j`, its line encodes the 48 bytes from there, and its note reports the
      percentage at that offset. */
  predicate UploadPlan(content: seq<Byte>, lines: seq<string>, notes: seq<string>)
  {
    |lines| == |Chunks(content, UploadChunkSize)| && |notes| == |lines| &&
    forall j :: 0 <= j < |lines| ==>
      0 < |content| &&
      lines[j] == ChunkLine(Slice(content, UploadChunkSize * j, UploadChunkSize * j + UploadChunkSize)) &&
      notes[j] == ProgressNote(UploadChunkSize * j, |content|)
  }

  /** What the plan says about slice number `k`. */
  lemma PlanAt(content: seq<Byte>, lines: seq<string>, notes: seq<string>, k: nat)
    requires UploadPlan(content, lines, notes) && k < |lines|
    ensures lines[k] == ChunkLine(Slice(content, UploadChunkSize * k, UploadChunkSize * k + UploadChunkSize))
    ensures notes[k] == ProgressNote(UploadChunkSize * k, |content|)
  {
  }

  lemma UploadPlanHolds(content: seq<Byte>)
    ensures UploadPlan(content, ChunkLines(Chunks(content, UploadChunkSize)), ProgressNotes(|content|))
  {
    var cs := Chunks(content, UploadChunkSize);
    ChunksCount(content, UploadChunkSize);
    forall j | 0 <= j < |cs| {
      SlicePlanned(content, j);
    }
  }

  /** Slice number `j` of an upload: its exec line and its progress report. */
  lemma SlicePlanned(content: seq<Byte>, j: nat)
    requires j < |Chunks(content, UploadChunkSize)|
    ensures 0 < |content|
    ensures ChunkLines(Chunks(content, UploadChunkSize))[j] ==
      ChunkLine(Slice(content, UploadChunkSize * j, UploadChunkSize * j + UploadChunkSize))
    ensures j < |ProgressNotes(|content|)| && ProgressNotes(|content|)[j] == ProgressNote(UploadChunkSize * j, |content|)
  {
    ChunksCount(content, UploadChunkSize);
    ChunkAt(content, UploadChunkSize, j);
  }

  /** Which slice indices exist. */
  lemma ChunkIndex<T>(s: seq<T>, n: nat, k: nat)
    requires n > 0
    ensures k < |Chunks(s, n)| <==> n * k < |s|
  {
    ChunkAt(s, n, k);
  }

  lemma ChunkAtFirst<T>(s: seq<T>, n: nat, k: nat)
    requires n > 0 && (|s| <= n || k == 0)
    ensures k < |Chunks(s, n)| <==> n * k < |s|
    ensures k < |Chunks(s, n)| ==> Chunks(s, n)[k] == Slice(s, n * k, n * k + n)
  {
    MulSign(k, n);
    assert n * k == k * n;
    if k == 0 {
      assert n * k == 0;
      if |s| > 0 {
        assert Chunks(s, n)[0] == s[..Min(n, |s|)];
      }
    }
  }

  /** The step case: piece `k` of `s` is piece `k - 1` of what follows the first
      piece, which starts at `m = n * (k - 1)` there. */
  lemma ChunkAtRest<T>(s: seq<T>, n: nat, k: nat, m: nat)
    requires n > 0 && |s| > n && k > 0
    requires k - 1 < |Chunks(s[n..], n)| <==> m < |s[n..]|
    requires k - 1 < |Chunks(s[n..], n)| ==> Chunks(s[n..], n)[k - 1] == Slice(s[n..], m, m + n)
    ensures k < |Chunks(s, n)| <==> m + n < |s|
    ensures k < |Chunks(s, n)| ==> Chunks(s, n)[k] == Slice(s, m + n, m + n + n)
  {
    ChunksFront(s, n);
    ConsAt(Chunks(s, n), s[..n], Chunks(s[n..], n), k);
    SliceShift(s, n, m);
  }

  lemma ChunksFront<T>(s: seq<T>, n: nat)
    requires n > 0 && |s| > n
    ensures Chunks(s, n) == [s[..n]] + Chunks(s[n..], n)
  {
  }

  lemma ConsAt<T>(p: seq<T>, a: T, t: seq<T>, k: nat)
    requires p == [a] + t && k > 0
    ensures |p| == |t| + 1
    ensures k < |p| ==> p[k] == t[k - 1]
  {
  }

  lemma MulStep(n: nat, k: nat)
    requires k > 0
    ensures n * k == n * (k - 1) + n
  {
  }
}
