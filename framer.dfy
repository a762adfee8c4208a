/**
 * The serial link as the board sees it, and what `read_until` and
 * `write_and_read_until` do to it.
 *
 * The link is a value: the strings written so far (one entry per
 * `serial.write` call), the chunks the device has yet to deliver (one per
 * 'readable' event; "" for an event on which `serial.read()` returned nothing),
 * and the strings handed to data consumers so far.  Every board operation is a
 * script of steps played against it.
 */
module Framer {
  import opened JsText
  import opened Chunking

  datatype Link = Link(written: seq<string>, inbox: seq<string>, observed: seq<string>)

  /** `buff.indexOf(ending) !== -1`. */
  predicate Contains(s: string, needle: string)
  {
    IndexOf(s, needle) != -1
  }

  // ---------------------------------------------------------------------------
  // read_until

  /** The number of 'readable' events `read_until` handles before its buffer holds
      `ending`, looking from event `from` on; None when the chunks run out first. */
  function ReadCountFrom(chunks: seq<string>, ending: string, from: nat): (k: Option<nat>)
    requires 1 <= from
    ensures k.Some? ==> from <= k.value <= |chunks| && Contains(Concat(chunks[..k.value]), ending)
    ensures k.Some? ==> forall j :: from <= j < k.value ==> !Contains(Concat(chunks[..j]), ending)
    ensures k.None? ==> forall j :: from <= j <= |chunks| ==> !Contains(Concat(chunks[..j]), ending)
    decreases |chunks| - from + 1
  {
    if from > |chunks| then None
    else if Contains(Concat(chunks[..from]), ending) then Some(from)
    else ReadCountFrom(chunks, ending, from + 1)
  }

  /** `read_until` stops after the first event that leaves `ending` in the buffer;
      the check is made after every event, also one that brought no data. */
  function ReadCount(chunks: seq<string>, ending: string): (k: Option<nat>)
    ensures k.Some? ==> 1 <= k.value <= |chunks| && Contains(Concat(chunks[..k.value]), ending)
    ensures k.Some? ==> forall j :: 1 <= j < k.value ==> !Contains(Concat(chunks[..j]), ending)
    ensures k.None? ==> forall j :: 1 <= j <= |chunks| ==> !Contains(Concat(chunks[..j]), ending)
  {
    ReadCountFrom(chunks, ending, 1)
  }

  /** The chunks a data consumer receives: the events that brought data. */
  function Delivered(chunks: seq<string>): (d: seq<string>)
    ensures forall k :: 0 <= k < |d| ==> d[k] != ""
    ensures |d| <= |chunks|
  {
    if chunks == [] then []
    else (if chunks[0] == "" then [] else [chunks[0]]) + Delivered(chunks[1..])
  }

  /** What the consumer receives adds up to the buffer `read_until` builds. */
  lemma {:induction false} DeliveredConcat(chunks: seq<string>)
    ensures Concat(Delivered(chunks)) == Concat(chunks)
    decreases |chunks|
  {
    if chunks != [] {
      DeliveredConcat(chunks[1..]);
      var head := if chunks[0] == "" then [] else [chunks[0]];
      ConcatAppend(head, Delivered(chunks[1..]));
    }
  }

  lemma DeliveredSnoc(chunks: seq<string>, c: string)
    ensures Delivered(chunks + [c]) == Delivered(chunks) + (if c == "" then [] else [c])
  {
    if chunks == [] {
      assert chunks + [c] == [c];
    } else {
      assert (chunks + [c])[1..] == chunks[1..] + [c];
      DeliveredSnoc(chunks[1..], c);
    }
  }

  lemma ConcatSnoc(parts: seq<string>, x: string)
    ensures Concat(parts + [x]) == Concat(parts) + x
  {
    ConcatAppend(parts, [x]);
    assert [x][1..] == [];
    assert x + [] == x;
  }

  /** One more 'readable' event, as `read_until` handles it. */
  lemma ReadAdvance(inbox: seq<string>, n: nat, consume: bool)
    requires n < |inbox|
    ensures inbox[n + 1..] == inbox[n..][1..]
    ensures Concat(inbox[..n + 1]) == Concat(inbox[..n]) + (if inbox[n] == "" then "" else inbox[n])
    ensures Seen(inbox[..n + 1], consume) ==
      Seen(inbox[..n], consume) + (if inbox[n] != "" && consume then [inbox[n]] else [])
  {
    var before := inbox[..n];
    assert inbox[..n + 1] == before + [inbox[n]];
    ConcatSnoc(before, inbox[n]);
    DeliveredSnoc(before, inbox[n]);
    if inbox[n] == "" {
      assert Concat(before) + "" == Concat(before);
    }
  }

  /** The first event after which the buffer holds `ending` is where the read ends. */
  lemma ReadFound(l: Link, ending: string, consume: bool, n: nat)
    requires 1 <= n <= |l.inbox| && Contains(Concat(l.inbox[..n]), ending)
    requires forall j :: 1 <= j < n ==> !Contains(Concat(l.inbox[..j]), ending)
    ensures Read(l, ending, consume) ==
      (Link(l.written, l.inbox[n..], l.observed + Seen(l.inbox[..n], consume)), Some(Concat(l.inbox[..n])))
  {
    assert ReadCount(l.inbox, ending) == Some(n);
  }

  /** No event left `ending` in the buffer: the read never ends. */
  lemma ReadExhausted(l: Link, ending: string, consume: bool, n: nat)
    requires n == |l.inbox|
    requires forall j :: 1 <= j <= n ==> !Contains(Concat(l.inbox[..j]), ending)
    ensures Read(l, ending, consume) ==
      (Link(l.written, l.inbox[n..], l.observed + Seen(l.inbox[..n], consume)), None)
  {
    assert l.inbox[..n] == l.inbox && l.inbox[n..] == [];
    assert ReadCount(l.inbox, ending) == None;
  }

  /** What a consumer is handed: nothing when none was given. */
  function Seen(chunks: seq<string>, consume: bool): seq<string>
  {
    if consume then Delivered(chunks) else []
  }

  /** `read_until(ending, data_consumer)`: the link afterwards and the buffer it
      resolves with, or None when the promise never settles. */
  function Read(l: Link, ending: string, consume: bool): (res: (Link, Option<string>))
    ensures res.0.written == l.written
  {
    match ReadCount(l.inbox, ending)
    case Some(k) =>
      (l.(inbox := l.inbox[k..], observed := l.observed + Seen(l.inbox[..k], consume)),
       Some(Concat(l.inbox[..k])))
    case None =>
      (l.(inbox := [], observed := l.observed + Seen(l.inbox, consume)), None)
  }

  /** The buffer `read_until` resolves with holds `ending`, is made of whole chunks
      in arrival order, equals what the consumer received, and no earlier event
      would have ended the read. */
  lemma ReadResult(l: Link, ending: string, consume: bool)
    requires Read(l, ending, consume).1.Some?
    ensures var (l', buff) := Read(l, ending, consume);
      exists k :: 1 <= k <= |l.inbox| &&
        buff.value == Concat(l.inbox[..k]) && l'.inbox == l.inbox[k..] &&
        Contains(buff.value, ending) &&
        (forall j :: 1 <= j < k ==> !Contains(Concat(l.inbox[..j]), ending)) &&
        (consume ==> l'.observed == l.observed + Delivered(l.inbox[..k]) &&
                     Concat(Delivered(l.inbox[..k])) == buff.value)
  {
    var k := ReadCount(l.inbox, ending).value;
    DeliveredConcat(l.inbox[..k]);
  }

  // ---------------------------------------------------------------------------
  // scripts

  /** One use of the serial port by the board:
      - Paced: one `write_and_read_until(cmd, expect, data_consumer)` call
        (`until == ""` for a call without an `expect`);
      - Direct: one `serial.write(data)` without pacing;
      - Report: one call of the data consumer by the board itself. */
  datatype Step =
    | Paced(cmd: string, until: string, consume: bool)
    | Direct(data: string)
    | Report(note: string)

  /** A step that waits for a marker: the only kind that can fail to settle. */
  predicate Reads(s: Step)
  {
    s.Paced? && s.until != ""
  }

  /** One step: the link afterwards and what the call resolves with ("" for a call
      that reads nothing), or None when it never settles. */
  function RunStep(l: Link, s: Step): (Link, Option<string>)
  {
    match s
    case Paced(cmd, until, consume) =>
      var l1 := l.(written := l.written + Chunks(cmd, CommandChunkSize));
      if until == "" then (l1, Some("")) else Read(l1, until, consume)
    case Direct(data) => (l.(written := l.written + [data]), Some(""))
    case Report(note) => (l.(observed := l.observed + [note]), Some(""))
  }

  /** The steps of a script, one after the other, stopping at the first that never
      settles; on completion, one result per step. */
  function Play(l: Link, script: seq<Step>): (res: (Link, Option<seq<string>>))
    ensures res.1.Some? ==> |res.1.value| == |script|
    decreases |script|
  {
    if script == [] then (l, Some([]))
    else
      var (l1, o) := RunStep(l, script[0]);
      if o.None? then (l1, None)
      else
        var (l2, rest) := Play(l1, script[1..]);
        (l2, if rest.None? then None else Some([o.value] + rest.value))
  }

  /** A read that settles consumes at least one event; one that never settles
      consumes them all. */
  lemma ReadDrains(l: Link, ending: string, consume: bool)
    ensures Read(l, ending, consume).1.None? ==> Read(l, ending, consume).0.inbox == []
    ensures Read(l, ending, consume).1.Some? ==> |Read(l, ending, consume).0.inbox| < |l.inbox|
  {
    if Read(l, ending, consume).1.Some? {
      ReadResult(l, ending, consume);
    }
  }

  /** One step writes exactly its writes; only a step that waits for a marker can
      fail to settle, and then it has consumed every event; any other step settles
      at once with "" and leaves the events alone. */
  lemma RunStepSettles(l: Link, s: Step)
    ensures RunStep(l, s).0.written == l.written + StepWrites(s)
    ensures RunStep(l, s).1.None? ==> Reads(s) && RunStep(l, s).0.inbox == []
    ensures !Reads(s) ==> RunStep(l, s).1 == Some("") && RunStep(l, s).0.inbox == l.inbox
  {
    if s.Paced? && s.until != "" {
      ReadDrains(l.(written := l.written + Chunks(s.cmd, CommandChunkSize)), s.until, s.consume);
    }
  }

  /** A script that never settles has consumed every event. */
  lemma {:induction false} PlayBlocked(l: Link, script: seq<Step>)
    ensures Play(l, script).1.None? ==> Play(l, script).0.inbox == []
    decreases |script|
  {
    if script != [] {
      RunStepSettles(l, script[0]);
      PlayBlocked(RunStep(l, script[0]).0, script[1..]);
    }
  }

  /** A script that waits for no marker always completes. */
  lemma {:induction false} PlayWithoutReads(l: Link, script: seq<Step>)
    requires forall j :: 0 <= j < |script| ==> !Reads(script[j])
    ensures Play(l, script).1.Some?
    decreases |script|
  {
    if script != [] {
      assert forall j :: 0 <= j < |script| - 1 ==> script[1..][j] == script[j + 1];
      RunStepSettles(l, script[0]);
      PlayWithoutReads(RunStep(l, script[0]).0, script[1..]);
    }
  }

  /** Playing two scripts in a row is playing their concatenation. */
  lemma {:induction false} PlayAppend(l: Link, a: seq<Step>, b: seq<Step>)
    ensures Play(l, a + b).0 ==
      (if Play(l, a).1.None? then Play(l, a).0 else Play(Play(l, a).0, b).0)
    ensures Play(l, a + b).1 ==
      (if Play(l, a).1.None? || Play(Play(l, a).0, b).1.None? then None
       else Some(Play(l, a).1.value + Play(Play(l, a).0, b).1.value))
    decreases |a|
  {
    if a == [] {
      assert a + b == b;
      if Play(l, b).1.Some? {
        assert [] + Play(l, b).1.value == Play(l, b).1.value;
      }
    } else {
      assert (a + b)[0] == a[0];
      assert (a + b)[1..] == a[1..] + b;
      var (l1, o) := RunStep(l, a[0]);
      if o.Some? {
        PlayAppend(l1, a[1..], b);
        var ra, rb := Play(l1, a[1..]).1, Play(Play(l1, a[1..]).0, b).1;
        if ra.Some? && rb.Some? {
          assert [o.value] + (ra.value + rb.value) == ([o.value] + ra.value) + rb.value;
        }
      }
    }
  }

  /** Playing a script one step further. */
  lemma PlaySnoc(l: Link, a: seq<Step>, s: Step)
    ensures Play(l, a + [s]).0 ==
      (if Play(l, a).1.None? then Play(l, a).0 else RunStep(Play(l, a).0, s).0)
    ensures Play(l, a + [s]).1 ==
      (if Play(l, a).1.None? || RunStep(Play(l, a).0, s).1.None? then None
       else Some(Play(l, a).1.value + [RunStep(Play(l, a).0, s).1.value]))
  {
    PlayAppend(l, a, [s]);
    PlayOne(Play(l, a).0, s);
  }

  lemma PlayOne(l: Link, s: Step)
    ensures Play(l, [s]).0 == RunStep(l, s).0
    ensures Play(l, [s]).1 == (if RunStep(l, s).1.None? then None else Some([RunStep(l, s).1.value]))
  {
    assert [s][1..] == [];
    var o := RunStep(l, s).1;
    if o.Some? {
      assert [o.value] + [] == [o.value];
    }
  }

  /** Everything a step puts on the wire, write by write. */
  function StepWrites(s: Step): seq<string>
  {
    match s
    case Paced(cmd, _, _) => Chunks(cmd, CommandChunkSize)
    case Direct(data) => [data]
    case Report(_) => []
  }

  function Writes(script: seq<Step>): seq<string>
  {
    if script == [] then [] else StepWrites(script[0]) + Writes(script[1..])
  }

  lemma WritesOne(x: Step)
    ensures Writes([x]) == StepWrites(x)
  {
    assert [x][1..] == [];
  }

  lemma {:induction false} WritesAppend(a: seq<Step>, b: seq<Step>)
    ensures Writes(a + b) == Writes(a) + Writes(b)
    decreases |a|
  {
    if a == [] {
      assert a + b == b;
    } else {
      assert (a + b)[0] == a[0];
      assert (a + b)[1..] == a[1..] + b;
      WritesAppend(a[1..], b);
    }
  }

  predicate IsPrefix<T(==)>(a: seq<T>, b: seq<T>)
  {
    |a| <= |b| && b[..|a|] == a
  }

  /** A script appends exactly its writes, in order, when it completes, and a prefix
      of them when a read never settles; it never takes back a write. */
  lemma {:induction false} PlayWrites(l: Link, script: seq<Step>)
    ensures IsPrefix(l.written, Play(l, script).0.written)
    ensures IsPrefix(Play(l, script).0.written[|l.written|..], Writes(script))
    ensures Play(l, script).1.Some? ==> Play(l, script).0.written == l.written + Writes(script)
    decreases |script|
  {
    if script != [] {
      var s0, rest := script[0], script[1..];
      var l1 := RunStep(l, s0).0;
      var w := Play(l, script).0.written;
      RunStepSettles(l, s0);
      assert Writes(script) == StepWrites(s0) + Writes(rest);
      if RunStep(l, s0).1.Some? {
        PlayWrites(l1, rest);
        assert w == Play(l1, rest).0.written;
        assert Play(l, script).1.Some? ==> Play(l1, rest).1.Some?;
        WritesGrow(l.written, StepWrites(s0), w, Writes(rest));
        AppendAssoc(l.written, StepWrites(s0), Writes(rest));
      } else {
        assert w == l.written + StepWrites(s0) && Play(l, script).1.None?;
        WritesGrow(l.written, StepWrites(s0), w, []);
        assert StepWrites(s0) + [] == StepWrites(s0);
        PrefixOfAppend(StepWrites(s0), Writes(rest));
      }
    }
  }

  /** The prefix facts of `PlayWrites`, one step at a time: `w` extends `a + b` by a
      prefix of `rest`. */
  lemma WritesGrow(a: seq<string>, b: seq<string>, w: seq<string>, rest: seq<string>)
    requires IsPrefix(a + b, w) && IsPrefix(w[|a + b|..], rest)
    ensures IsPrefix(a, w) && IsPrefix(w[|a|..], b + rest)
  {
    assert w[..|a|] == (a + b)[..|a|];
    assert w[|a|..] == b + w[|a + b|..];
  }

  lemma PrefixOfAppend<T>(a: seq<T>, b: seq<T>)
    ensures IsPrefix(a, a + b)
  {
    assert (a + b)[..|a|] == a;
  }
}
