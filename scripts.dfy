/**
 * What each board operation does on the serial port, as a script of steps:
 * the Python snippets it sends, the control characters around them and the
 * markers it waits for.
 */
module Scripts {
  import opened JsText
  import opened Protocol
  import opened Chunking
  import opened Framer

  // ---------------------------------------------------------------------------
  // the raw REPL primitives

  /** `enter_raw_repl`: CTRL-A, then wait for the raw REPL banner. */
  function EnterScript(): seq<Step>
  {
    [Paced(CtrlA, RawBanner, false)]
  }

  /** `exit_raw_repl`: CTRL-B, then wait for the friendly prompt. */
  function ExitScript(): seq<Step>
  {
    [Paced(CtrlB, FriendlyPrompt, false)]
  }

  /** `exec_raw(cmd, data_consumer)`: the code without waiting, then CTRL-D and wait
      for the end of the execution, feeding the consumer if there is one. */
  function ExecScript(cmd: string, consume: bool): seq<Step>
  {
    [Paced(cmd, "", false), Paced(CtrlD, ExecEnd, consume)]
  }

  /** Enter the raw REPL, execute `cmd`, leave: the shape of `run`, `execfile` and
      every `fs_*` operation except the uploads. */
  function CommandScript(cmd: string, consume: bool): seq<Step>
  {
    EnterScript() + ExecScript(cmd, consume) + ExitScript()
  }

  /** `stop`: a bare CTRL-C. */
  function StopScript(): seq<Step>
  {
    [Direct(CtrlC)]
  }

  /** `reset`: CTRL-C, then CTRL-D (a soft reboot in the friendly REPL). */
  function ResetScript(): seq<Step>
  {
    [Direct(CtrlC), Direct(CtrlD)]
  }

  /** `get_prompt`: `stop`, then `\r\x03\x02` and wait for the friendly prompt. */
  function PromptScript(): seq<Step>
  {
    StopScript() + [Paced(PromptRequest, FriendlyPrompt, false)]
  }

  /** `code || '#'`: empty code is replaced by a Python comment. */
  function OrComment(code: string): (c: string)
    ensures c != ""
    ensures code != "" ==> c == code
  {
    if code == "" then "#" else code
  }

  /** The body of `run(code, data_consumer)`. */
  function RunScript(code: string, consume: bool): seq<Step>
  {
    CommandScript(OrComment(code), consume)
  }

  // ---------------------------------------------------------------------------
  // uploads (`fs_put`, `fs_save`)

  /** The steps for slice `j`: its exec line, then its progress note when the caller
      gave a consumer. */
  function SliceGroup(lines: seq<string>, notes: seq<string>, consume: bool, j: nat): seq<Step>
    requires j < |lines| && j < |notes|
  {
    ExecScript(lines[j], false) + (if consume then [Report(notes[j])] else [])
  }

  /** The steps for the first `k` slices, in order. */
  function SliceSteps(lines: seq<string>, notes: seq<string>, consume: bool, k: nat): seq<Step>
    requires k <= |lines| && k <= |notes|
  {
    if k == 0 then [] else SliceSteps(lines, notes, consume, k - 1) + SliceGroup(lines, notes, consume, k - 1)
  }

  /** The slices of an upload: one exec per 48-byte slice of `content`, each
      followed by its progress note when there is a consumer. */
  function UploadSlices(content: seq<Byte>, consume: bool): seq<Step>
  {
    var cs := Chunks(content, UploadChunkSize);
    ChunksCount(content, UploadChunkSize);
    SliceSteps(ChunkLines(cs), ProgressNotes(|content|), consume, |cs|)
  }

  /** An upload: enter, open the destination, the slices, close, exit. */
  function UploadScript(dest: string, content: seq<Byte>, consume: bool): seq<Step>
  {
    EnterScript() + ExecScript(OpenLine(dest), false) + UploadSlices(content, consume)
    + ExecScript(CloseLine, false) + ExitScript()
  }

  // ---------------------------------------------------------------------------
  // the Python snippets

  function ExistsCommand(path: string): string
  {
    "try:\n  f = open(\"" + path + "\", \"r\")\n  print(1)\nexcept OSError:\n  print(0)\ndel f\n"
  }

  function LsCommand(path: string): string
  {
    "import uos\ntry:\n  print(uos.listdir(\"" + path + "\"))\nexcept OSError:\n  print([])\n"
  }

  function IlsCommand(path: string): string
  {
    "import uos\ntry:\n  l=[]\n  for f in uos.ilistdir(\"" + path + "\"):\n    l.append(list(f))\n"
    + "  print(l)\nexcept OSError:\n  print([])\ndel l\ndel f\n"
  }

  /** Reads the file 256 bytes at a time, printing each byte in decimal followed by a comma. */
  function CatBinaryCommand(path: string): string
  {
    "with open('" + path + "','rb') as f:\n  while 1:\n    b=f.read(256)\n    if not b:break\n"
    + "    print(\",\".join(str(e) for e in b),end=',')\ndel f\ndel b\n"
  }

  function CatCommand(path: string): string
  {
    "with open('" + path + "','r') as f:\n while 1:\n  b=f.read(256)\n  if not b:break\n"
    + "  print(b,end='')\ndel f\ndel b\n"
  }

  function MkdirCommand(path: string): string
  {
    "import uos\nuos.mkdir('" + path + "')"
  }

  function RmdirCommand(path: string): string
  {
    "import uos\ntry:\n  uos.rmdir(\"" + path + "\")\nexcept OSError:\n  print(0)\n"
  }

  function RmCommand(path: string): string
  {
    "import uos\ntry:\n  uos.remove(\"" + path + "\")\nexcept OSError:\n  print(0)\n"
  }

  function RenameCommand(from: string, to: string): string
  {
    "import uos\nuos.rename('" + from + "', '" + to + "')"
  }

  // ---------------------------------------------------------------------------
  // what a script sends and reports

  /** What one projection of each step contributes, step after step. */
  function Collect(script: seq<Step>, f: Step -> seq<string>): seq<string>
  {
    if script == [] then [] else f(script[0]) + Collect(script[1..], f)
  }

  lemma {:induction false} CollectAppend(a: seq<Step>, b: seq<Step>, f: Step -> seq<string>)
    ensures Collect(a + b, f) == Collect(a, f) + Collect(b, f)
    decreases |a|
  {
    if a == [] {
      assert a + b == b;
    } else {
      assert (a + b)[0] == a[0];
      assert (a + b)[1..] == a[1..] + b;
      CollectAppend(a[1..], b, f);
    }
  }

  /** The code an `exec_raw` call hands over: the command written without waiting. */
  function ExecOf(s: Step): seq<string>
  {
    if s.Paced? && s.until == "" then [s.cmd] else []
  }

  /** The marker a step waits for. */
  function WaitOf(s: Step): seq<string>
  {
    if Reads(s) then [s.until] else []
  }

  /** The texts the board itself hands to the consumer. */
  function ReportOf(s: Step): seq<string>
  {
    if s.Report? then [s.note] else []
  }

  lemma CollectTwo(x: Step, y: Step, f: Step -> seq<string>)
    ensures Collect([x, y], f) == f(x) + f(y)
  {
    assert [x, y][1..] == [y];
    CollectOne(y, f);
  }

  lemma CollectOne(x: Step, f: Step -> seq<string>)
    ensures Collect([x], f) == f(x)
  {
    assert [x][1..] == [];
  }

  lemma CollectPair(s: seq<Step>, f: Step -> seq<string>)
    requires |s| == 2
    ensures Collect(s, f) == f(s[0]) + f(s[1])
  {
    assert s == [s[0], s[1]];
    CollectTwo(s[0], s[1], f);
  }

  lemma CollectSingle(s: seq<Step>, f: Step -> seq<string>)
    requires |s| == 1
    ensures Collect(s, f) == f(s[0])
  {
    assert s == [s[0]];
    CollectOne(s[0], f);
  }

  /** One slice's steps exec its line. */
  lemma GroupExecs(lines: seq<string>, notes: seq<string>, consume: bool, j: nat)
    requires j < |lines| && j < |notes|
    ensures Collect(SliceGroup(lines, notes, consume, j), ExecOf) == [lines[j]]
  {
    GroupParts(lines[j], notes[j], consume, ExecOf);
  }

  /** One slice's steps report its note when there is a consumer. */
  lemma GroupReports(lines: seq<string>, notes: seq<string>, consume: bool, j: nat)
    requires j < |lines| && j < |notes|
    ensures Collect(SliceGroup(lines, notes, consume, j), ReportOf) == (if consume then [notes[j]] else [])
  {
    GroupParts(lines[j], notes[j], consume, ReportOf);
  }

  /** What one slice's steps contribute, step by step. */
  lemma GroupParts(line: string, note: string, consume: bool, f: Step -> seq<string>)
    ensures Collect(ExecScript(line, false) + (if consume then [Report(note)] else []), f) ==
      f(Paced(line, "", false)) + f(Paced(CtrlD, ExecEnd, false)) + (if consume then f(Report(note)) else [])
  {
    var exec := ExecScript(line, false);
    var tail := if consume then [Report(note)] else [];
    CollectAppend(exec, tail, f);
    CollectTwo(exec[0], exec[1], f);
    assert exec == [exec[0], exec[1]];
    if consume {
      CollectOne(Report(note), f);
    }
  }

  /** The slice steps exec the slice lines in order, and report the notes in order
      when there is a consumer. */
  lemma SliceStepsCollect(lines: seq<string>, notes: seq<string>, consume: bool, k: nat)
    requires k <= |lines| && k <= |notes|
    ensures Collect(SliceSteps(lines, notes, consume, k), ExecOf) == lines[..k]
    ensures Collect(SliceSteps(lines, notes, consume, k), ReportOf) == if consume then notes[..k] else []
  {
    SliceStepsExecs(lines, notes, consume, k);
    SliceStepsReports(lines, notes, consume, k);
  }

  lemma {:induction false} SliceStepsExecs(lines: seq<string>, notes: seq<string>, consume: bool, k: nat)
    requires k <= |lines| && k <= |notes|
    ensures Collect(SliceSteps(lines, notes, consume, k), ExecOf) == lines[..k]
    decreases k
  {
    if k > 0 {
      SliceStepsExecs(lines, notes, consume, k - 1);
      GroupExecs(lines, notes, consume, k - 1);
      CollectExtend(SliceSteps(lines, notes, consume, k - 1), SliceGroup(lines, notes, consume, k - 1),
        ExecOf, lines[..k - 1], [lines[k - 1]]);
      TakeSnoc(lines, k);
    }
  }

  lemma SliceStepsReports(lines: seq<string>, notes: seq<string>, consume: bool, k: nat)
    requires k <= |lines| && k <= |notes|
    ensures Collect(SliceSteps(lines, notes, consume, k), ReportOf) == if consume then notes[..k] else []
  {
    if consume {
      SliceStepsNotes(lines, notes, k);
    } else {
      SliceStepsSilent(lines, notes, k);
    }
  }

  lemma {:induction false} SliceStepsNotes(lines: seq<string>, notes: seq<string>, k: nat)
    requires k <= |lines| && k <= |notes|
    ensures Collect(SliceSteps(lines, notes, true, k), ReportOf) == notes[..k]
    decreases k
  {
    if k > 0 {
      SliceStepsNotes(lines, notes, k - 1);
      GroupReports(lines, notes, true, k - 1);
      CollectExtend(SliceSteps(lines, notes, true, k - 1), SliceGroup(lines, notes, true, k - 1),
        ReportOf, notes[..k - 1], [notes[k - 1]]);
      TakeSnoc(notes, k);
    }
  }

  lemma {:induction false} SliceStepsSilent(lines: seq<string>, notes: seq<string>, k: nat)
    requires k <= |lines| && k <= |notes|
    ensures Collect(SliceSteps(lines, notes, false, k), ReportOf) == []
    decreases k
  {
    if k > 0 {
      SliceStepsSilent(lines, notes, k - 1);
      GroupReports(lines, notes, false, k - 1);
      CollectExtend(SliceSteps(lines, notes, false, k - 1), SliceGroup(lines, notes, false, k - 1),
        ReportOf, [], []);
    }
  }

  lemma CollectExtend(a: seq<Step>, b: seq<Step>, f: Step -> seq<string>, x: seq<string>, y: seq<string>)
    requires Collect(a, f) == x && Collect(b, f) == y
    ensures Collect(a + b, f) == x + y
  {
    CollectAppend(a, b, f);
  }

  /** What five scripts in a row contribute. */
  lemma CollectFive(a: seq<Step>, b: seq<Step>, c: seq<Step>, d: seq<Step>, e: seq<Step>,
                    f: Step -> seq<string>)
    ensures Collect(a + b + c + d + e, f) ==
      Collect(a, f) + Collect(b, f) + Collect(c, f) + Collect(d, f) + Collect(e, f)
  {
    CollectAppend(a + b + c + d, e, f);
    CollectAppend(a + b + c, d, f);
    CollectAppend(a + b, c, f);
    CollectAppend(a, b, f);
  }

  /** What five parts in a row contribute, when all but the middle one hold one or
      two steps. */
  lemma CollectAround(a: seq<Step>, b: seq<Step>, m: seq<Step>, c: seq<Step>, d: seq<Step>,
                      f: Step -> seq<string>)
    requires |a| == 1 && |b| == 2 && |c| == 2 && |d| == 1
    ensures Collect(a + b + m + c + d, f) ==
      f(a[0]) + f(b[0]) + f(b[1]) + Collect(m, f) + f(c[0]) + f(c[1]) + f(d[0])
  {
    CollectFive(a, b, m, c, d, f);
    CollectSingle(a, f);
    CollectSingle(d, f);
    CollectPair(b, f);
    CollectPair(c, f);
  }

  /** What an upload contributes, part by part. */
  lemma UploadCollect(dest: string, content: seq<Byte>, consume: bool, f: Step -> seq<string>)
    ensures var open, close := ExecScript(OpenLine(dest), false), ExecScript(CloseLine, false);
      Collect(UploadScript(dest, content, consume), f) ==
        f(EnterScript()[0]) + f(open[0]) + f(open[1])
        + Collect(UploadSlices(content, consume), f)
        + f(close[0]) + f(close[1]) + f(ExitScript()[0])
  {
    CollectAround(EnterScript(), ExecScript(OpenLine(dest), false), UploadSlices(content, consume),
                  ExecScript(CloseLine, false), ExitScript(), f);
  }

  /** An upload execs exactly the upload lines: open, one line per slice, close. */
  lemma UploadScriptExecs(dest: string, content: seq<Byte>, consume: bool)
    ensures Collect(UploadScript(dest, content, consume), ExecOf) == UploadLines(dest, content)
  {
    var cs := Chunks(content, UploadChunkSize);
    var open, close := ExecScript(OpenLine(dest), false), ExecScript(CloseLine, false);
    var slices := Collect(UploadSlices(content, consume), ExecOf);
    assert slices == ChunkLines(cs) by {
      ChunksCount(content, UploadChunkSize);
      SliceStepsCollect(ChunkLines(cs), ProgressNotes(|content|), consume, |cs|);
      TakeFull(ChunkLines(cs));
    }
    calc {
      Collect(UploadScript(dest, content, consume), ExecOf);
      { UploadCollect(dest, content, consume, ExecOf); }
      ExecOf(EnterScript()[0]) + ExecOf(open[0]) + ExecOf(open[1]) + slices
        + ExecOf(close[0]) + ExecOf(close[1]) + ExecOf(ExitScript()[0]);
      [] + [OpenLine(dest)] + [] + slices + [CloseLine] + [] + [];
      { EmptyPieces(OpenLine(dest), slices, CloseLine); }
      UploadLines(dest, content);
    }
  }

  lemma EmptyPieces<T>(a: T, s: seq<T>, b: T)
    ensures [] + [a] + [] + s + [b] + [] + [] == [a] + s + [b]
  {
  }

  /** An upload reports one percentage per slice, those of `ProgressValues`, when
      the caller gave a consumer, and nothing otherwise. */
  lemma UploadScriptReports(dest: string, content: seq<Byte>, consume: bool)
    ensures consume ==>
      Collect(UploadScript(dest, content, consume), ReportOf) ==
      seq(|ProgressValues(|content|)|, j requires 0 <= j < |ProgressValues(|content|)| =>
        ShowNat(ProgressValues(|content|)[j]) + "%")
    ensures !consume ==> Collect(UploadScript(dest, content, consume), ReportOf) == []
  {
    var cs := Chunks(content, UploadChunkSize);
    var notes := ProgressNotes(|content|);
    ChunksCount(content, UploadChunkSize);
    UploadCollect(dest, content, consume, ReportOf);
    SliceStepsCollect(ChunkLines(cs), notes, consume, |cs|);
    assert notes[..|cs|] == notes;
    if consume {
      ProgressNotesValues(|content|);
      Padded(notes);
    } else {
      Padded<string>([]);
    }
  }

  lemma Padded<T>(x: seq<T>)
    ensures [] + [] + [] + x + [] + [] + [] == x
  {
  }

  /** The notes are the percentages of `ProgressValues`, each followed by `%`. */
  lemma ProgressNotesValues(len: nat)
    ensures ProgressNotes(len) ==
      seq(|ProgressValues(len)|, j requires 0 <= j < |ProgressValues(len)| => ShowNat(ProgressValues(len)[j]) + "%")
  {
    ProgressBounds(len);
  }

  // ---------------------------------------------------------------------------
  // what each primitive writes and waits for

  lemma Around<T>(x: T, m: seq<T>, y: T, z: T)
    ensures [x] + (m + [y]) + [z] == [x] + m + [y, z]
  {
  }

  lemma Trio<T>(x: T, y: T, z: T)
    ensures [x] + [y] + [z] == [x, y, z]
  {
  }

  lemma Lone<T>(x: T)
    ensures [] + [x] + [] == [x]
  {
  }

  lemma EnterTranscript()
    ensures Writes(EnterScript()) == [CtrlA]
    ensures Collect(EnterScript(), WaitOf) == [RawBanner]
    ensures Collect(EnterScript(), ExecOf) == []
  {
    var x := Paced(CtrlA, RawBanner, false);
    ControlChunk(CtrlA);
    WritesOne(x);
    CollectOne(x, WaitOf);
    CollectOne(x, ExecOf);
  }

  lemma ExitTranscript()
    ensures Writes(ExitScript()) == [CtrlB]
    ensures Collect(ExitScript(), WaitOf) == [FriendlyPrompt]
    ensures Collect(ExitScript(), ExecOf) == []
  {
    var x := Paced(CtrlB, FriendlyPrompt, false);
    ControlChunk(CtrlB);
    WritesOne(x);
    CollectOne(x, WaitOf);
    CollectOne(x, ExecOf);
  }

  /** `exec_raw` writes the code in 128-character slices, then CTRL-D, and waits
      only for the end of the execution. */
  lemma ExecTranscript(cmd: string, consume: bool)
    ensures Writes(ExecScript(cmd, consume)) == Chunks(cmd, CommandChunkSize) + [CtrlD]
    ensures Collect(ExecScript(cmd, consume), WaitOf) == [ExecEnd]
    ensures Collect(ExecScript(cmd, consume), ExecOf) == [cmd]
  {
    var x, y := Paced(cmd, "", false), Paced(CtrlD, ExecEnd, consume);
    ControlChunk(CtrlD);
    WritesAppend([x], [y]);
    assert [x] + [y] == ExecScript(cmd, consume);
    WritesOne(x);
    WritesOne(y);
    CollectTwo(x, y, WaitOf);
    CollectTwo(x, y, ExecOf);
  }

  /** What three scripts played one after the other write. */
  lemma ThreeWrites(a: seq<Step>, b: seq<Step>, c: seq<Step>, x: string, m: seq<string>, y: string, z: string)
    requires Writes(a) == [x] && Writes(b) == m + [y] && Writes(c) == [z]
    ensures Writes(a + b + c) == [x] + m + [y, z]
  {
    WritesAppend(a + b, c);
    WritesAppend(a, b);
    Around(x, m, y, z);
  }

  /** What three scripts played one after the other collect. */
  lemma ThreeCollect(a: seq<Step>, b: seq<Step>, c: seq<Step>, f: Step -> seq<string>)
    ensures Collect(a + b + c, f) == Collect(a, f) + Collect(b, f) + Collect(c, f)
  {
    CollectAppend(a + b, c, f);
    CollectAppend(a, b, f);
  }

  /** A raw command writes CTRL-A, the code in 128-character slices, CTRL-D and
      CTRL-B, waits for the banner, the end of the execution and the prompt, and
      execs nothing but the code. */
  lemma CommandTranscript(cmd: string, consume: bool)
    ensures Writes(CommandScript(cmd, consume)) == [CtrlA] + Chunks(cmd, CommandChunkSize) + [CtrlD, CtrlB]
    ensures Collect(CommandScript(cmd, consume), WaitOf) == [RawBanner, ExecEnd, FriendlyPrompt]
    ensures Collect(CommandScript(cmd, consume), ExecOf) == [cmd]
  {
    var a, b, c := EnterScript(), ExecScript(cmd, consume), ExitScript();
    EnterTranscript();
    ExecTranscript(cmd, consume);
    ExitTranscript();
    ThreeWrites(a, b, c, CtrlA, Chunks(cmd, CommandChunkSize), CtrlD, CtrlB);
    ThreeCollect(a, b, c, WaitOf);
    ThreeCollect(a, b, c, ExecOf);
    Trio(RawBanner, ExecEnd, FriendlyPrompt);
    Lone(cmd);
  }

  lemma StopTranscript()
    ensures Writes(StopScript()) == [CtrlC]
    ensures Collect(StopScript(), WaitOf) == []
  {
    WritesOne(Direct(CtrlC));
    CollectOne(Direct(CtrlC), WaitOf);
  }

  lemma ResetTranscript()
    ensures Writes(ResetScript()) == [CtrlC, CtrlD]
    ensures Collect(ResetScript(), WaitOf) == []
  {
    var x, y := Direct(CtrlC), Direct(CtrlD);
    WritesAppend([x], [y]);
    assert [x] + [y] == ResetScript();
    WritesOne(x);
    WritesOne(y);
    CollectTwo(x, y, WaitOf);
  }

  lemma PromptTranscript()
    ensures Writes(PromptScript()) == [CtrlC, PromptRequest]
    ensures Collect(PromptScript(), WaitOf) == [FriendlyPrompt]
  {
    var x := Paced(PromptRequest, FriendlyPrompt, false);
    ControlChunk(PromptRequest);
    StopTranscript();
    WritesAppend(StopScript(), [x]);
    WritesOne(x);
    CollectAppend(StopScript(), [x], WaitOf);
    CollectOne(x, WaitOf);
  }

  /** `run` writes CTRL-A, the code (or `#`) in 128-character slices, CTRL-D and
      CTRL-B, in that order and nothing else, and execs only that code. */
  lemma RunTranscript(code: string, consume: bool)
    ensures Writes(RunScript(code, consume)) ==
      [CtrlA] + Chunks(OrComment(code), CommandChunkSize) + [CtrlD, CtrlB]
    ensures Collect(RunScript(code, consume), ExecOf) == [OrComment(code)]
  {
    CommandTranscript(OrComment(code), consume);
  }
}
