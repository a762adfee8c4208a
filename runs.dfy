/**
 * How a board settles the promises `run` hands out.  The board keeps one
 * rejecter (`reject_run`): a new `run`, `stop` and `reset` reject the promise it
 * belongs to and clear it.  Promises are numbered in the order `run` created them.
 */
module Runs {
  import opened JsText

  /** Why a promise was rejected. */
  datatype Error =
    | Message(text: string)   // `new Error(text)`
    | NoReason                // `Promise.reject()` with no value
    | TypeError               // a call through a `null` serial port
    | OpenFailed              // the error `serial.open` reported

  /** What an operation's promise does: resolve with a value, reject, or never settle
      (a read whose marker never arrives). */
  datatype Outcome<T> = Done(value: T) | Failed(error: Error) | Blocked
  {
    function Map<U>(f: T -> U): Outcome<U>
    {
      match this
      case Done(v) => Done(f(v))
      case Failed(e) => Failed(e)
      case Blocked => Blocked
    }
  }

  datatype RunState = Pending | Resolved(output: string) | Rejected(reason: Error)

  /** The rejecter the board holds (the number of its run, if any) and the state of
      every promise `run` returned. */
  datatype Slot = Slot(rejecter: Option<nat>, runs: seq<RunState>)

  /** The rejecter belongs to an existing run, and only the run it belongs to can
      still be pending. */
  predicate Valid(s: Slot)
  {
    (s.rejecter.Some? ==> s.rejecter.value < |s.runs|) &&
    forall i :: 0 <= i < |s.runs| && s.runs[i].Pending? ==> s.rejecter == Some(i)
  }

  /** `if (this.reject_run) { this.reject_run(new Error(reason)); this.reject_run = null }`.
      Rejecting a promise that has already settled changes nothing. */
  function Cancel(s: Slot, reason: string): (t: Slot)
    requires Valid(s)
    ensures Valid(t) && t.rejecter.None? && |t.runs| == |s.runs|
    ensures forall i :: 0 <= i < |s.runs| ==>
      t.runs[i] == (if s.runs[i].Pending? then Rejected(Message(reason)) else s.runs[i])
  {
    match s.rejecter
    case None => s
    case Some(i) =>
      Slot(None, if s.runs[i].Pending? then s.runs[i := Rejected(Message(reason))] else s.runs)
  }

  /** The start of `run`: the previous run is rejected with `re-run` and the new
      one's rejecter takes the slot. */
  function Begin(s: Slot): (t: Slot)
    requires Valid(s)
    ensures Valid(t) && |t.runs| == |s.runs| + 1
    ensures t.rejecter == Some(|s.runs|) && t.runs[|s.runs|] == Pending
    ensures forall i :: 0 <= i < |s.runs| ==>
      t.runs[i] == (if s.runs[i].Pending? then Rejected(Message("re-run")) else s.runs[i])
  {
    var c := Cancel(s, "re-run");
    Slot(Some(|s.runs|), c.runs + [Pending])
  }

  /** The end of run `id`: resolved with its output (the rejecter stays in the
      slot), rejected with the error it ran into (the slot is cleared), or still
      pending when a read never settles. */
  function Finish(s: Slot, id: nat, o: Outcome<string>): (t: Slot)
    requires Valid(s) && s.rejecter == Some(id) && s.runs[id].Pending?
    ensures Valid(t) && |t.runs| == |s.runs|
    ensures forall i :: 0 <= i < |s.runs| && i != id ==> t.runs[i] == s.runs[i]
    ensures o.Done? ==> t.runs[id] == Resolved(o.value) && t.rejecter == Some(id)
    ensures o.Failed? ==> t.runs[id] == Rejected(o.error) && t.rejecter.None?
    ensures o.Blocked? ==> t == s
  {
    match o
    case Done(out) => Slot(s.rejecter, s.runs[id := Resolved(out)])
    case Failed(e) => Slot(None, s.runs[id := Rejected(e)])
    case Blocked => s
  }

  /** One whole `run` whose body ended with `o`. */
  function RunWith(s: Slot, o: Outcome<string>): (t: Slot)
    requires Valid(s)
    ensures Valid(t)
  {
    Finish(Begin(s), |s.runs|, o)
  }

  /** At most one promise handed out by `run` is pending at any time. */
  lemma AtMostOnePending(s: Slot, i: nat, j: nat)
    requires Valid(s) && i < |s.runs| && j < |s.runs|
    requires s.runs[i].Pending? && s.runs[j].Pending?
    ensures i == j
  {
  }

  /** A new run never leaves an earlier one pending: the one still waiting is
      rejected with `re-run`, a settled one keeps its result. */
  lemma RunPreempts(s: Slot, o: Outcome<string>)
    requires Valid(s)
    ensures var t := RunWith(s, o);
      |t.runs| == |s.runs| + 1 &&
      (forall i :: 0 <= i < |s.runs| ==> !t.runs[i].Pending?) &&
      (forall i :: 0 <= i < |s.runs| && !s.runs[i].Pending? ==> t.runs[i] == s.runs[i]) &&
      (forall i :: 0 <= i < |s.runs| && s.runs[i].Pending? ==> t.runs[i] == Rejected(Message("re-run")))
  {
  }

  /** `stop` or `reset` after a run has resolved finds its rejecter still in the
      slot, calls it, and changes nothing: the run keeps its output. */
  lemma CancelAfterResolve(s: Slot, out: string, reason: string)
    requires Valid(s)
    ensures var t := RunWith(s, Done(out));
      t.rejecter == Some(|s.runs|) && Cancel(t, reason).runs == t.runs &&
      Cancel(t, reason).runs[|s.runs|] == Resolved(out)
  {
  }

  /** `stop` or `reset` while a run waits rejects it with the reason given, and
      afterwards nothing is pending. */
  lemma CancelWhilePending(s: Slot, reason: string)
    requires Valid(s)
    ensures var t := Cancel(RunWith(s, Blocked), reason);
      t.runs[|s.runs|] == Rejected(Message(reason)) &&
      forall i :: 0 <= i < |t.runs| ==> !t.runs[i].Pending?
  {
  }
}
