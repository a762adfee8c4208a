/**
 * The fixed bytes and markers of the MicroPython raw REPL as micropython.js
 * uses them: the control characters it writes and the texts it waits for.
 */
module Protocol {

  /** CTRL-A: enter the raw REPL. */
  const CtrlA: string := "\U{1}"
  /** CTRL-B: leave the raw REPL. */
  const CtrlB: string := "\U{2}"
  /** CTRL-C: interrupt whatever runs. */
  const CtrlC: string := "\U{3}"
  /** CTRL-D: "execute now" inside the raw REPL, soft reboot outside it. */
  const CtrlD: string := "\U{4}"

  /** The banner the device prints on entering the raw REPL. */
  const RawBanner: string := "raw REPL; CTRL-B to exit"
  /** The friendly prompt, preceded by a line break. */
  const FriendlyPrompt: string := "\r\n>>>"
  /** What `exec_raw` waits for after CTRL-D: the second EOT and the raw prompt. */
  const ExecEnd: string := "\U{4}>"
  /** The tail of a successful raw execution: both EOTs (empty error text) and the prompt. */
  const ReplyTail: string := "\U{4}\U{4}>"
  /** What `get_prompt` writes after interrupting. */
  const PromptRequest: string := "\r\U{3}\U{2}"

  /** A device reply to a raw execution whose output is `m` and whose error text is empty. */
  function Reply(m: string): (r: string)
    ensures |r| == |m| + 5
    ensures r[..2] == "OK" && r[2..|r| - 3] == m && r[|r| - 3..] == ReplyTail
  {
    "OK" + m + ReplyTail
  }
}
