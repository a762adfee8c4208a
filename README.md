# micropython.js raw-REPL client, modelled in Dafny

This project models the protocol core of `micropython.js`. That file is a Node
client which drives a MicroPython board over a serial port through the board's
raw REPL. The project also models the argument handling of its command-line
front end, `cli.js`.

The serial link is a value, `Framer.Link`. It has three parts:

- the strings written so far, one per `serial.write` call;
- the chunks the device has yet to deliver, one per `'readable'` event (`""` for
  an event on which `read()` returns nothing);
- the strings handed to data consumers so far.

Each operation of `MicroPythonBoard` is described twice:

- as a script of steps (`Scripts`), played by the pure `Framer.Play` and wrapped
  by the reference functions in `Operations`;
- as a method of the class `Board.MicroPythonBoard`, written the way the source
  does it. It has fields for the port, the serial handle and the `reject_run`
  slot; `read_until` and the 128-character writer are loops; the upload is a
  loop over 48-byte slices that accumulates `out`.

Every method is proved to leave the link and settle its promise exactly as its
reference function says. The outcome of a promise is `Runs.Outcome`:

- `Done(value)`: it resolves;
- `Failed(error)`: it rejects;
- `Blocked`: it never settles, because the marker a read waits for never arrives.

A call through a `null` serial handle throws a `TypeError` before anything is
written.

The properties proved fall into these groups:

- **Response decoders.** Unframing, the byte-list round trip of `fs_cat_binary`,
  `fixLineBreak` as a global replace, and the text `fs_ls`, `fs_ils` and
  `fs_exists` produce.
- **Reads.** `read_until` stops at the first event that leaves the marker in the
  buffer, and the consumer gets exactly the non-empty chunks.
- **Writes.** Each script writes exactly its pieces, in order.
- **The `reject_run` slot.** A small state machine over every promise `run`
  returned.
- **Uploads.** The lines decode back to the content, there is one progress note
  per slice, and the percentages stay in range and never decrease.
- **The CLI.** How `extractCommands` groups argv, and what `extractFileArray`
  hands to `JSON.parse`.

The model covers two things the JSON parser is given:

- `fs_ils` passes `JSON.parse` the array that `split('OK')` returns, and
  JavaScript turns that array into text by joining its pieces with commas.
  `Decoders.IlsText` models that coercion. The lemma
  `Decoders.IlsTextMangles` shows that a file named `OK` in the listing turns
  into a comma.
- The reply `fs_cat_binary` gets for an empty file decodes to `[0]`, not `[]`
  (`Decoders.ExtractBytesEmptyFile`).

## Model

| member | source | states |
|---|---|---|
| Protocol.Reply | micropython.js:19-26 | a successful raw execution answers `OK`, the output, then `\x04\x04>`: five characters more than the output |
| Decoders.Extract | micropython.js:19-26 | `extract` drops the first two and the last three characters, and gives `''` for a reply of five characters or fewer |
| Decoders.ExtractReply | micropython.js:19-26 | unframing a framed output gives the output back exactly |
| Decoders.ExtractBytes | micropython.js:28-32 | `extractBytes` always yields at least one number, because `split` never returns an empty list |
| Decoders.DecimalsRoundTrip | micropython.js:28-32 | splitting the comma-joined decimals of a non-empty byte list and reading each with `Number` gives the bytes back |
| Decoders.ExtractBytesRoundTrip | micropython.js:262-277 | the reply of the `fs_cat_binary` snippet (every byte in decimal, each followed by a comma), cut with 2 and 4, decodes to the bytes of a non-empty file |
| Decoders.ExtractBytesEmptyFile | micropython.js:262-277 | for an empty file the same decoding gives the single number 0 |
| Decoders.FixLineBreak | micropython.js:13-17 | `fixLineBreak` never lengthens the text |
| Decoders.FixLineBreakIsReplaceAll | micropython.js:13-17 | it equals a split at every `\r\n` found from the left, joined with `\n` |
| Decoders.FixLineBreakNoCR | micropython.js:13-17 | it leaves a text without `\r` unchanged |
| Decoders.FixLineBreakLength | micropython.js:13-17 | the text shrinks by exactly one character per `\r\n` replaced |
| Decoders.FixLineBreakSinglePass | micropython.js:13-17 | a single pass is made: `\r\r\n` becomes `\r\n`, which still holds a CRLF |
| Decoders.ListingText | micropython.js:231-233 | the text `fs_ls` parses is the unframed reply, of the same length, with no single quote left |
| Decoders.ListingOfReply | micropython.js:221-236 | on a framed reply it is the printed list with every `'` made `"`, and the list itself when that holds no `'` |
| Decoders.IlsText | micropython.js:255-258 | when the listing holds no `OK`, `fs_ils` parses the same text as `fs_ls` |
| Decoders.IlsTextOfReply | micropython.js:238-260 | a printed list without quotes and without `OK` reaches `JSON.parse` unchanged |
| Decoders.IlsTextQuoteFree | micropython.js:238-260 | a quote-free printed list reaches `JSON.parse` split at every `OK` and re-joined with commas |
| Decoders.IlsTextMangles | micropython.js:238-260 | a name holding `OK` between two clean parts turns `before OK after` into `before , after` |
| Decoders.NoOkIndex | micropython.js:257 | `indexOf('OK')` is -1 exactly when no position holds an `O` followed by a `K` |
| Decoders.SplitAtFirst | micropython.js:257 | splitting `x OK rest` at `OK`, where `x` holds no `OK`, gives `x` and then the pieces of `rest` |
| Decoders.CatText | micropython.js:289-290 | `fs_cat`'s text is never longer than the unframed reply |
| Decoders.CatOfReply | micropython.js:282-293 | on a framed reply, `fs_cat` returns the printed text with its line breaks fixed, unchanged when it holds no `\r` |
| Decoders.ExistsFlag | micropython.js:217 | `output[2] == '1'` can only hold for a reply longer than two characters |
| Decoders.ExistsOfReply | micropython.js:206-219 | on a framed reply, `fs_exists` is true exactly when the snippet printed `1` first: true for `1`, false for `0` |
| JsText.IndexOf | micropython.js:96 | `indexOf` is -1 or a position where the needle fits |
| JsText.IndexOfSpec | micropython.js:96 | -1 means no occurrence anywhere; otherwise the needle occurs there and at no earlier position |
| JsText.Slice | micropython.js:109 | `slice` never lengthens; in range it is the plain subsequence; a negative end counts from the end; an end not after the start gives nothing |
| JsText.Split | micropython.js:257 | `split` always returns at least one piece |
| JsText.Join | micropython.js:258 | the joined text holds every piece and one separator between two pieces |
| JsText.ToNumber | micropython.js:30 | `Number` gives a number exactly for a digit string, 0 for the empty string, the digit's value for a single digit |
| JsText.ShowNat | micropython.js:308 | the decimal rendering is a non-empty digit string, with a leading zero only for 0 |
| JsText.JoinSplit | micropython.js:257 | joining the pieces of a split with its separator gives the text back |
| JsText.SplitJoin | micropython.js:30 | splitting at a one-element separator undoes a join of pieces that do not hold it |
| JsText.SplitPartsClean | micropython.js:257 | no piece of a split holds the separator |
| JsText.ReplaceChar | micropython.js:233 | `replace(/'/g, '"')` keeps the length and changes exactly the quote characters |
| JsText.ShowNatRoundTrip | micropython.js:30 | `Number` reads back the decimal rendering of every non-negative integer |
| JsText.ShowNatHasNo | micropython.js:306 | a decimal rendering holds no comma or other non-digit |
| Runs.Cancel | micropython.js:184-188 | rejecting with a reason: the slot is emptied, only the pending run is rejected, settled runs keep their result |
| Runs.Begin | micropython.js:162-166 | `run` first rejects the previous pending run with `re-run`, then installs its own rejecter on a new pending promise |
| Runs.Finish | micropython.js:167-175 | a resolved run keeps its stale rejecter in the slot; a failed run is rejected with the error and the slot is cleared; a blocked run changes nothing |
| Runs.AtMostOnePending | micropython.js:159-176 | at most one promise handed out by `run` is pending at any time |
| Runs.RunPreempts | micropython.js:159-176 | after a new `run`, no earlier run is pending: the waiting one is rejected with `re-run`, settled ones are unchanged |
| Runs.CancelAfterResolve | micropython.js:184-188 | `stop` after a resolved run calls its stale rejecter to no effect: the run keeps its output |
| Runs.CancelWhilePending | micropython.js:194-198 | a `stop` or `reset` while a run waits rejects it with the given reason and leaves nothing pending |
| Framer.ReadCount | micropython.js:85-103 | the read handles events up to the first one after which the buffer holds the ending, or never ends |
| Framer.Read | micropython.js:85-103 | `read_until` leaves the written strings alone |
| Framer.ReadResult | micropython.js:85-103 | the buffer is the first `k` chunks, holds the ending, no earlier prefix did, the rest stays in the inbox, and the consumer got exactly the non-empty chunks, which add up to the buffer |
| Framer.DeliveredConcat | micropython.js:89-95 | the chunks handed to the consumer add up to the buffer |
| Framer.ReadDrains | micropython.js:85-103 | a read that settles consumes at least one event; one that never settles consumes them all |
| Framer.RunStepSettles | micropython.js:105-121 | one call writes exactly its pieces; only a call with an `expect` can fail to settle, having then consumed every event; a call without one settles at once and reads nothing |
| Framer.Play | micropython.js:105-121 | a script that completes yields one output per step |
| Framer.PlayBlocked | micropython.js:105-121 | a script that never settles has consumed every event |
| Framer.PlayWithoutReads | micropython.js:105-121 | a script none of whose steps waits for a marker always completes |
| Framer.PlayWrites | micropython.js:105-121 | a script only appends: exactly its writes in order when it completes, a prefix of them when a read never ends |
| Chunking.Chunks | micropython.js:108-110 | every piece is non-empty and at most the chunk size |
| Chunking.ChunksCount | micropython.js:108-110 | there are `ceil(len / n)` pieces, and none for an empty command |
| Chunking.ChunksFull | micropython.js:108-110 | every piece but the last is full |
| Chunking.ChunksConcat | micropython.js:108-110 | the pieces concatenate to the original |
| Chunking.ChunkLineRoundTrip | micropython.js:305-307 | the device decodes each `w(bytes([...]))` line to exactly the slice it was made from |
| Chunking.UploadLines | micropython.js:295-315 | an upload execs one open line, `ceil(len / 48)` slice lines and one close line, and the slice lines decode to the content |
| Chunking.UploadEmpty | micropython.js:304-310 | with no bytes, only the open and the close are exec'd |
| Chunking.ProgressValues | micropython.js:308 | no percentages are reported for an empty payload |
| Chunking.ProgressBounds | micropython.js:304-309 | one percentage per slice, the first 0, all below 100, never decreasing |
| Chunking.ProgressNoteReads | micropython.js:308 | the note is the percentage in decimal followed by `%`; its digits read back as the whole part of `100 * i / len`, which is below 100 exactly while `i < len` |
| Chunking.ProgressNotes | micropython.js:308 | one note per slice, the note of slice `j` rendering the percentage at offset `48 * j` |
| Scripts.OrComment | micropython.js:169 | empty code becomes `#`, any other code is kept |
| Scripts.EnterTranscript | micropython.js:131-134 | `enter_raw_repl` writes CTRL-A alone, waits only for the raw REPL banner, and execs nothing |
| Scripts.ExitTranscript | micropython.js:136-139 | `exit_raw_repl` writes CTRL-B alone, waits only for the friendly prompt, and execs nothing |
| Scripts.ExecTranscript | micropython.js:141-145 | `exec_raw` writes the code in 128-character pieces and then CTRL-D, waits only for `\x04>`, and execs exactly the code |
| Scripts.CommandTranscript | micropython.js:214-216 | enter, exec and exit write CTRL-A, the code in pieces, CTRL-D and CTRL-B; they wait for the banner, the end of the execution and the prompt, in that order; they exec only the code |
| Scripts.StopTranscript | micropython.js:184-192 | `stop` writes CTRL-C alone and waits for nothing |
| Scripts.ResetTranscript | micropython.js:194-204 | `reset` writes CTRL-C, then CTRL-D, and waits for nothing |
| Scripts.PromptTranscript | micropython.js:123-129 | `get_prompt` writes CTRL-C, then `\r\x03\x02`, and waits only for the friendly prompt |
| Scripts.RunTranscript | micropython.js:159-171 | `run` writes CTRL-A, the code (or `#`) in 128-character pieces, CTRL-D, CTRL-B, and nothing else, and execs only that code |
| Scripts.UploadScriptExecs | micropython.js:301-311 | the execs of an upload are exactly the open line, the slice lines in order, and the close line |
| Scripts.UploadScriptReports | micropython.js:304-309 | with a consumer, an upload reports the percentages of `ProgressValues` followed by `%`, in order; without one, nothing |
| Scripts.SliceStepsCollect | micropython.js:304-309 | the first `k` slices exec the first `k` lines and report the first `k` notes |
| Operations.Transact | micropython.js:106 | a call through a `null` serial handle fails with a `TypeError` and changes nothing; otherwise it plays the script and settles with the chosen step's output, or never |
| Operations.CommandSent | micropython.js:131-145 | a raw command fails exactly when there is no serial handle, with a `TypeError` and nothing written; once it settles it has written CTRL-A, the code in 128-character pieces, CTRL-D and CTRL-B |
| Operations.FsExistsWrites | micropython.js:206-216 | `fs_exists` sends exactly the `open(path, "r")` snippet as a raw command, or fails with a `TypeError` without a serial handle |
| Operations.FsLsWrites | micropython.js:221-230 | `fs_ls` sends exactly the `uos.listdir` snippet, or fails with a `TypeError` without a serial handle |
| Operations.FsIlsWrites | micropython.js:238-253 | `fs_ils` sends exactly the `uos.ilistdir` snippet, or fails with a `TypeError` without a serial handle |
| Operations.FsCatBinaryWrites | micropython.js:262-280 | an empty path rejects with `Path to file was not specified` and writes nothing; otherwise the byte-printing snippet is sent |
| Operations.FsCatWrites | micropython.js:282-293 | an empty path rejects with `Path to file was not specified` and writes nothing; otherwise the text-printing snippet is sent |
| Operations.FsMkdirWrites | micropython.js:339-349 | an empty path rejects without a reason and writes nothing; otherwise the `uos.mkdir` snippet is sent |
| Operations.FsRmdirWrites | micropython.js:351-364 | an empty path rejects without a reason and writes nothing; otherwise the `uos.rmdir` snippet is sent |
| Operations.FsRmWrites | micropython.js:366-378 | an empty path rejects without a reason and writes nothing; otherwise the `uos.remove` snippet is sent |
| Operations.FsRenameWrites | micropython.js:380-389 | either path empty rejects without a reason and writes nothing; otherwise the `uos.rename` snippet is sent |
| Operations.ExecfileWrites | micropython.js:147-157 | an empty path rejects without a reason and writes nothing; otherwise the text of the file is sent as it is |
| Operations.RunBodyWrites | micropython.js:167-171 | the body of `run` sends the code, or `#` for none |
| Operations.EvalWrites | micropython.js:179-182 | `eval(k)` writes `k` and nothing else and resolves at once, or fails with a `TypeError` without a serial handle |
| Operations.StopWrites | micropython.js:189-191 | the write of `stop` is CTRL-C alone, and it resolves at once |
| Operations.ResetWrites | micropython.js:199-203 | `reset` writes CTRL-C, then CTRL-D, and resolves at once |
| Operations.GetPromptWrites | micropython.js:123-129 | once settled, `get_prompt` has written CTRL-C and `\r\x03\x02`, and nothing else |
| Operations.UploadFails | micropython.js:300-312 | an upload fails exactly when there is no serial handle, and only ever appends to what was written |
| Operations.FsPutWrites | micropython.js:295-315 | an empty source or destination rejects with `Must specify source and destination paths` and writes nothing; otherwise a completed upload wrote exactly the upload script's writes |
| Operations.FsSaveWrites | micropython.js:317-337 | empty content or destination rejects with `Must specify content and destination path` and writes nothing; otherwise a completed upload wrote exactly the upload script's writes |
| Operations.SliceStep | micropython.js:305-309 | one slice: the exec of its line, then, once it completes, its note to the consumer; a slice that does not complete stops the upload where the exec stopped |
| Operations.CommandSplit | micropython.js:214-216 | enter, exec and exit one after the other equal the command script, stopping at the first that does not resolve |
| Operations.ExecSplit | micropython.js:141-145 | `exec_raw` is the unpaced write of the code, then the paced CTRL-D |
| Operations.CommandOnDevice | micropython.js:131-145 | against a device that sends the banner, the framed output and the prompt, a command writes CTRL-A, the code in 128-character pieces, CTRL-D and CTRL-B, and settles with the framed output |
| Operations.FsExistsOnDevice | micropython.js:206-219 | against a device that sends the banner, the framed output and the prompt, `fs_exists` settles with whether the snippet printed `1` first |
| Operations.FsLsOnDevice | micropython.js:221-236 | against a device that sends the banner, the framed output and the prompt, `fs_ls` settles with the printed list, single quotes made double |
| Operations.FsCatOnDevice | micropython.js:282-293 | against a device that sends the banner, the framed output and the prompt, `fs_cat` settles with the printed text, line breaks fixed |
| Operations.FsCatBinaryOnDevice | micropython.js:262-280 | against a device that sends the banner, the framed output and the prompt, `fs_cat_binary` settles with the bytes of a non-empty file |
| Operations.FsRmOnDevice | micropython.js:366-378 | against a device that sends the banner, the framed output and the prompt, `fs_rm` settles with the friendly prompt the exit read, not with the exec output |
| Operations.RunOnDevice | micropython.js:159-171 | against a device that sends the banner, the framed output and the prompt, the body of `run` writes the code or `#`, hands the framed output to the consumer, and settles with it |
| Operations.UploadWrites | micropython.js:295-315 | a completed upload wrote exactly its script's writes, and the lines it exec'd decode back to the content |
| Operations.ChunkAt | micropython.js:304-305 | slice `k` exists exactly when `48 * k` is inside the content, and it is `subarray(48 * k, 48 * k + 48)` |
| Board.MicroPythonBoard.constructor | micropython.js:35-39 | a new board has no port, no serial handle, no rejecter and no runs |
| Board.MicroPythonBoard.Open | micropython.js:45-75 | an empty path rejects with `No device specified` and changes nothing; otherwise the path is stored and a fresh port is opened, rejecting when the system refuses it |
| Board.MicroPythonBoard.Close | micropython.js:77-83 | `close` closes an open port, is a no-op otherwise, and always resolves |
| Board.MicroPythonBoard.OnReadable | micropython.js:88-100 | one `'readable'` event: the next chunk joins the buffer, and reaches the consumer when it holds data |
| Board.MicroPythonBoard.ReadUntil | micropython.js:85-103 | the loop over events does exactly what `Framer.Read` says |
| Board.MicroPythonBoard.WriteAndReadUntil | micropython.js:105-121 | the loop writes the 128-character slices in order, then reads only when there is something to wait for |
| Board.MicroPythonBoard.EnterRawRepl | micropython.js:131-134 | CTRL-A, then wait for the raw REPL banner |
| Board.MicroPythonBoard.ExitRawRepl | micropython.js:136-139 | CTRL-B, then wait for the friendly prompt |
| Board.MicroPythonBoard.ExecRaw | micropython.js:141-145 | the code without waiting, then CTRL-D and wait for `\x04>` |
| Board.MicroPythonBoard.RawCommand | micropython.js:214-216 | enter, exec, exit; it yields both the exec output and the exit output |
| Board.MicroPythonBoard.FsExists | micropython.js:206-219 | runs the snippet that tries `open(path, "r")` and prints 1, or 0 on `OSError`, as a raw command and settles with `ExistsFlag` of the exec output, as `Operations.FsExists` says |
| Board.MicroPythonBoard.FsLs | micropython.js:221-236 | runs the `uos.listdir` snippet and settles with `ListingText` of the exec output, as `Operations.FsLs` says |
| Board.MicroPythonBoard.FsIls | micropython.js:238-260 | runs the `uos.ilistdir` snippet and settles with `IlsText` of the exec output, as `Operations.FsIls` says |
| Board.MicroPythonBoard.FsCatBinary | micropython.js:262-280 | an empty path rejects with `Path to file was not specified` and writes nothing; otherwise settles with `extractBytes(output, 2, 4)` of the exec output |
| Board.MicroPythonBoard.FsCat | micropython.js:282-293 | an empty path rejects with the same message and writes nothing; otherwise settles with `CatText` of the exec output |
| Board.MicroPythonBoard.FsMkdir | micropython.js:339-349 | an empty path rejects without a reason; otherwise settles with the exec output |
| Board.MicroPythonBoard.FsRmdir | micropython.js:351-364 | an empty path rejects without a reason; otherwise settles with the exec output |
| Board.MicroPythonBoard.FsRm | micropython.js:366-378 | an empty path rejects without a reason; otherwise settles with the exit output |
| Board.MicroPythonBoard.FsRename | micropython.js:380-389 | either path empty rejects without a reason; otherwise settles with the exit output |
| Board.MicroPythonBoard.Execfile | micropython.js:147-157 | an empty path rejects without a reason; otherwise runs the file's text and settles with the exec output |
| Board.MicroPythonBoard.Eval | micropython.js:179-182 | the text is written as it is, without waiting |
| Board.MicroPythonBoard.RejectRun | micropython.js:185-188 | the held rejecter is called and the slot is cleared, as `Runs.Cancel` says |
| Board.MicroPythonBoard.Run | micropython.js:159-177 | the slot moves as `Runs.RunWith` says, for the outcome of the body, and the link as `Operations.RunBody` says |
| Board.MicroPythonBoard.Stop | micropython.js:184-192 | rejects the pending run with `pre stop` and clears the slot, then writes CTRL-C |
| Board.MicroPythonBoard.Reset | micropython.js:194-204 | rejects the pending run with `pre reset` and clears the slot, then writes CTRL-C and CTRL-D |
| Board.MicroPythonBoard.GetPrompt | micropython.js:123-129 | `stop`, then `\r\x03\x02` and wait for the friendly prompt |
| Board.MicroPythonBoard.SendSlice | micropython.js:305-309 | one pass of the upload loop: the exec of the slice at offset `i`, then its progress note when there is a consumer |
| Board.MicroPythonBoard.SendSlices | micropython.js:304-309 | the loop over the slices plays the slice steps and accumulates what each exec read |
| Board.MicroPythonBoard.Upload | micropython.js:300-312 | enter, open, the slices, close and exit; settles with everything they read, in order, as `Operations.Upload` says |
| Board.MicroPythonBoard.UploadSteps | micropython.js:300-312 | the same calls, once the port is known, against the upload script |
| Board.MicroPythonBoard.FsPut | micropython.js:295-315 | an empty source or destination rejects with `Must specify source and destination paths`; otherwise the upload |
| Board.MicroPythonBoard.FsSave | micropython.js:317-337 | empty content or destination rejects with `Must specify content and destination path`; otherwise the upload |
| Cli.ExtractArguments | cli.js:5-7 | drops exactly the first two argv entries and keeps the rest in order |
| Cli.ExtractCommands | cli.js:9-27 | the `forEach` loop computes the grouping of the whole argument list |
| Cli.Absorb | cli.js:13-25 | one callback: a `--` token becomes the current key; the current key ends up present, with an empty list when it was new and the token pushed otherwise |
| Cli.AbsorbKey | cli.js:13-25 | one callback adds no key but the current one and leaves every other key's list unchanged |
| Cli.Commands | cli.js:9-27 | `extractCommands` returns an empty object exactly for an empty argument list |
| Cli.CommandsOwned | cli.js:13-25 | a key exists exactly when some token is in force under it, and its list is those tokens without the first, the one that created the key |
| Cli.CommandKeys | cli.js:9-21 | the keys are `null` exactly when the first token is not a `--` token, plus exactly the `--` tokens of the arguments |
| Cli.CommandsCount | cli.js:13-25 | the lists hold all the tokens but one per key |
| Cli.PortOf | cli.js:182 | the port is the first value under `--port`, or none when the key is missing or its list is empty |
| Cli.PortIsSecondOwned | cli.js:182 | the port is the second token in force under `--port` |
| Cli.PortAfterFlag | cli.js:182 | `--port p`, with `p` not a flag and no `--port` before, sets the port to `p` |
| Cli.EnsurePort | cli.js:38-40 | a missing or empty port throws `You must specify a port.` |
| Cli.PortNeedsFlag | cli.js:38-40 | a port the CLI accepts was given with a `--port` flag |
| Cli.UpToBracket | cli.js:33 | the text up to and including its first `]`, and `''` exactly when there is no `]` |
| Cli.ExtractFileArray | cli.js:29-36 | the text handed to `JSON.parse` has no single quote and no `OK`, and is empty or ends with its only `]` |
| Cli.FileArrayOfListing | cli.js:29-36 | on `before OK banner OK [items] after` it is the list with its single quotes made double |
| Cli.FileArrayWithoutMarkers | cli.js:29-36 | a text without any `OK` gives `''` |

## Left out

- The serial port library is not modelled: `SerialPort` construction, `pause`, `resume`, `flush` and the `'readable'` listener registration. The link is a value, and the chunks the device sends are an input.
- `list_ports` / `SerialPort.list` is left out: a foreign library call with nothing to state.
- `sleep` and every delay are left out: wall-clock pacing that changes nothing in the link.
- `Board.MicroPythonBoard.Open`: whether the system accepts the port is a parameter, and closing an already-open port is modelled as dropping it.
- Writes to a port that was closed are treated like writes to an open one. Only a `null` handle fails, with a `TypeError`.
- `Framer.Read`: a read that never finds its marker consumes the whole inbox and never settles. The model does not cover a later `'readable'` event that would reach the still-registered listener.
- Promise concurrency is not modelled: operations run one after the other. A `run` that was preempted while its body waited does not go on to interleave with later calls.
- `Board.MicroPythonBoard.Execfile` and `Board.MicroPythonBoard.FsPut`: the bytes `fs.readFileSync` reads are a parameter.
- `Board.MicroPythonBoard.FsSave`: the UTF-8 encoding of the text is a parameter. A non-empty text is taken to encode to a non-empty byte list.
- `write_and_read_until` without an `expect` resolves with `undefined`. The model resolves with `""`. The source discards that value everywhere (`exec_raw` writes the code this way), so the two are indistinguishable.
- `JSON.parse` is not modelled. The model stops at the text handed to it in `fs_ls`, `fs_ils` and `extractFileArray`.
- `Chunking.Chunks`: commands are cut into pieces of 128 Unicode characters, not 128 UTF-16 code units as `cmd.length` and `slice` count them. For text outside the Basic Multilingual Plane the two differ: 127 ASCII characters followed by an emoji are two writes in the source (one cut through a surrogate pair) and one write here.
- `Board.MicroPythonBoard.WriteAndReadUntil`: its loop cuts by `Chunking.Chunks` and so shares that limit; `Buffer.from` of a lone surrogate is not modelled.
- `Chunking.ProgressPercent`: `parseInt((i / len) * 100)` is taken as the integer `(100 * i) / len`. Floating-point rounding of the quotient is not modelled.
- `JsText.ToNumber`: `Number` is modelled only for digit strings, the empty string reading as 0. Everything else is not a number: whitespace, signs, fractions and hexadecimal are not modelled.
- The generated Python snippets are only built and sent to the board. What the device does with them (file system changes) is not modelled, and paths are embedded without escaping, as in the source.
- The `cli.js` command table, `console.log`, `process.argv` and the promise chains of the commands are left out as plumbing. This includes `listFiles`, which passes the array `fs_ls` already parsed to `extractFileArray`.
- `Cli.Commands`: the `null` key is `None`. JavaScript stores it under the text `"null"`, and no `--` token can be that text.
