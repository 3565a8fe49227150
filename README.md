# GLS29EE512 programmer: the page-transfer protocol engine

This project models the host side of the GLS29EE512 EEPROM programmer.
The host talks to a microcontroller bridge over a serial link, one 128-byte
page at a time. There are two scripts:

- `gls29ee512.py` can `dump`, `verify` or `write` a 65536-byte image.
- `writer.py` is the older tool: it writes and then verifies, or only verifies with `--verify-only`.

Each page is one transaction:

1. The host sends the command line `"<verb> <page>\n"`.
2. It waits for `#`.
3. It sends the page's slice of the image, or reads 128 bytes in a dump.
4. It waits for `>`.
5. A write or verify page fails unless `OK` occurs in what came before `>`.

Pages go in ascending order, and the sweep stops at the first page that does
not complete.

The model has eight modules:

- `Bytes`: the byte-string operations the scripts use: `endswith`, `in`, and `replace(b'ready>', b'')`.
- `Serial`: the link and `ExpectSerial`.
  - The device side is a stream of arrivals. Each arrival is a byte or a `Lull`, a per-read timeout.
  - `read(size)` takes bytes until it has `size` of them or meets a lull.
  - `ExpectSerial` is a class with two fields: what is still to arrive, and a trace of everything the host did (bytes sent, bytes read, and each `expect` and how it ended).
  - `Expect` is the imperative loop, proved equal to the specification function `ExpectSpec`.
- `Protocol`: the command line, and one page transaction (`PageSpec`). Also the sweep over all 512 pages (`PagesFrom`) and the script of messages a sweep sends. These are pure functions, with lemmas on:
  - the order of messages;
  - failure classification;
  - what a dump writes;
  - how the payload slices reassemble the image.
- `Session`: what `main` does around the sweeps. This covers the file-size gate, the sequence of passes, the probe for `>`, and the dump output file, which is a class written in place.
  - A probe that times out is reported and ignored, unless its buffer holds a byte that cp1252 does not define. Building the `TimeoutError` message then raises `UnicodeDecodeError`, which the probe's `except TimeoutError` does not catch, and `main` ends before any page is sent.
- `Pages`: one page transaction as a method on the `ExpectSerial` and `BinaryFile` objects. Both scripts run the same code for a page, and each method is proved equal to `PageSpec`.
- `Gls29ee512` and `Writer`: the two scripts.
  - `PageIterator` is `page_iterator` together with the body `main` runs at each yield. `SendAllPages` is `send_all_pages`.
  - Each script's `Run` is its `main`.
  - The methods work on the `ExpectSerial` and `BinaryFile` objects in place, and each is proved equal to the specification functions.
  - Scenario lemmas run `main` against programmers that behave in a given way: one that accepts every page, one that refuses a verify page, and dumps that come up short.
- `Agreement`: the two scripts compared.

Two details of the code the model follows:

- `expect` returns only the buffer, and its `TimeoutError` carries only the buffer, so `Timeout` names no page.
- The probe waits with the same `TIMEOUT` as every other wait.

## Model

| member | source | states |
|---|---|---|
| Bytes.Contains | gls29ee512.py:81 | `needle in hay` is true exactly when the needle occurs at some index of the haystack |
| Bytes.StripRemovesWholeEchoes | gls29ee512.py:119 | `replace(b'ready>', b'')` shortens the text by a whole number of copies of `ready>` |
| Bytes.StripWithoutEcho | gls29ee512.py:119 | text that contains no `ready>` is reported unchanged |
| Bytes.StripTrailingEcho | gls29ee512.py:119 | a reply made of status text followed by one `ready>` echo is reported as exactly the status text |
| Bytes.StripAtFirstEcho | gls29ee512.py:119 | `replace` keeps everything before the leftmost `ready>`, drops that copy, and carries on after it; with `StripWithoutEcho` this fixes the result on every input |
| Bytes.DecodesCp1252 | gls29ee512.py:138 | `decode("cp1252")` succeeds exactly when no byte of the buffer is one of the five bytes cp1252 leaves undefined (0x81, 0x8D, 0x8F, 0x90, 0x9D) |
| Serial.Take | gls29ee512.py:93 | `read(size)` returns at most `size` bytes; the arrivals are exactly the bytes returned, then the lull that cut the read short (if any), then what is left |
| Serial.ReadOneIsTake | gls29ee512.py:134 | `read()` is `read(1)` |
| Serial.TakeWhole | gls29ee512.py:93 | a `read(size)` that finds `size` bytes waiting returns all of them and leaves the rest |
| Serial.ExpectLoop | gls29ee512.py:133-138 | a matched buffer ends with one of the terminators; the buffer only grows; the link left is never longer than before (`ExpectConsumes` states it is a suffix) |
| Serial.ExpectReturnsFirstMatch | gls29ee512.py:130-138 | `expect` returns the buffer at the first read after which it ends with a terminator and resumes the stream right after that read; if no read within the deadline matches, it times out carrying everything read |
| Serial.ExpectConsumes | gls29ee512.py:130-138 | what is left after `expect` is a suffix of what it started on: `expect` only consumes the link |
| Serial.ExpectHearsReply | gls29ee512.py:130-138 | a device that sends, within the deadline, a text whose only terminator is its last byte is heard as exactly that text, and the link resumes right after it |
| Serial.MatchesAny | gls29ee512.py:135-137 | the inner loop over the terminators is true exactly when the buffer ends with one of them |
| Serial.ExpectSerial.constructor | gls29ee512.py:124-128 | a freshly opened port has the device's whole output to come and an empty trace |
| Serial.ExpectSerial.Write | gls29ee512.py:111 | `write` sends the bytes verbatim and consumes nothing |
| Serial.ExpectSerial.Read | gls29ee512.py:93 | `read(size)` returns and consumes exactly what `Take` says, and records the read |
| Serial.ExpectSerial.Expect | gls29ee512.py:130-138 | the loop returns the prompt and leaves the stream exactly as `ExpectSpec` says, and records one `expect`; `writer.py`'s `expect` (writer.py:68-76) is the same code |
| Protocol.Decimal | gls29ee512.py:111 | `str(page)` is a non-empty run of ASCII digits without a leading zero that denotes the page |
| Protocol.CommandLineIsOneLine | gls29ee512.py:111 | each command is ASCII and ends with its only newline |
| Protocol.CommandLineInjective | gls29ee512.py:111 | different verbs or pages never give the same command line |
| Protocol.Slice | gls29ee512.py:82 | `data[lo:hi]` is the exact slice when in range and never longer than `hi - lo` |
| Protocol.Stop | gls29ee512.py:116-121 | a page that did not complete ends the sweep with an outcome other than success; a failed page or short read names that page |
| Protocol.ClassifyFacts | gls29ee512.py:114-121 | the wait for `>` is appended to the page trace; a page times out exactly when `>` never came, and fails exactly when the check is on and `OK` is missing, carrying the response |
| Protocol.PageFacts | gls29ee512.py:109-121 | one page: the command first, then the wait for `#`; a payload only after `#`; a dump page written only when all 128 bytes came; a page reaching `>` ends on that wait and fails exactly when the check is on and `OK` is missing |
| Protocol.PageKeepsContract | gls29ee512.py:109-121 | every page transaction sends a prefix of its script (all of it unless it timed out) and keeps the contract the sweep relies on |
| Protocol.PagesFollowScript | gls29ee512.py:109-113 | whatever the device does, the host sends a prefix of the ascending page script; all of it on completion; exactly through the stopping page after a failure or short read; a timeout is the last thing on the trace and carries the buffer of that wait |
| Protocol.FailureIsMissingOk | gls29ee512.py:114-121 | a failed sweep has the check on, its last event is a `>` response without `OK`, and the diagnostic is that response minus `ready>` |
| Protocol.PagesOutput | gls29ee512.py:91-97 | a dump writes the bytes of every complete `read(128)` in order, 128 per completed page, with a short final read left out; write and verify write nothing |
| Protocol.ScriptLength | gls29ee512.py:109-111 | a sweep's script has two messages per page with a payload and one without |
| Protocol.ScriptLayout | gls29ee512.py:109-113 | in the script, page p's command names page p and is followed by p's payload slice |
| Protocol.PayloadsReassemble | gls29ee512.py:82-89 | for a 65536-byte image the payload slices sent for pages first..limit-1 concatenate to the image bytes they cover |
| Protocol.AnsweredPage | gls29ee512.py:109-121 | a write or verify page answered with `#` and a completion text whose only `>` is its last byte sends its command and slice, leaves the link after that text, and completes unless the check is on and `OK` is missing, in which case it is rejected with that text |
| Protocol.AnsweredPages | gls29ee512.py:109-121 | pages answered that way with `OK` all complete, one after another, and the sweep goes on from the first unanswered page on what follows |
| Protocol.AnsweredSweep | gls29ee512.py:109-121 | a device that answers all 512 pages with `#` and a completion text holding `OK` makes the sweep complete, having sent its whole script |
| Protocol.RejectedAt | gls29ee512.py:114-121 | a device that accepts pages 0 to k-1 and answers page k without `OK` makes a checked sweep fail at page k, reporting the answer minus `ready>`, having sent exactly the script through page k and nothing of page k+1 |
| Session.ReadAt | gls29ee512.py:56-57 | `f.read(n)` at a position returns at most n bytes, exactly those when available, nothing at the end |
| Session.CheckedImage | gls29ee512.py:54-61 | the input is accepted exactly when the file holds 65536 bytes, and then it is the whole file |
| Session.BinaryFile.constructor | gls29ee512.py:69 | the dump file is created empty |
| Session.BinaryFile.Write | gls29ee512.py:97 | each page written is appended to the file |
| Session.PassesFollowPlan | gls29ee512.py:77-97 | the passes send a prefix of their scripts in order; all of them on success; after a failure or short read exactly the earlier scripts and the stopping pass's script through its page; a timeout ends the run on that wait |
| Session.ConnectFollowsPlan | gls29ee512.py:71-97 | the same holds with the probe for `>` in front; a probe that ends the run on an undecodable buffer sent nothing and is the last thing on the trace |
| Session.ReceiveWritesWhatItRead | gls29ee512.py:91-97 | the dump file is every complete page read, a whole number of pages; on success all 65536 bytes read |
| Session.PassesEndOnMissingOk | gls29ee512.py:116-121 | a run of passes that ends on a failed page ends on the `>` response lacking `OK`, with the diagnostic that response minus `ready>` |
| Session.ConnectEndsOnMissingOk | gls29ee512.py:71-121 | the same with the probe in front |
| Session.ProbeGate | gls29ee512.py:71-75 | the run ends at the probe, with nothing sent, exactly when the probe times out on a buffer cp1252 cannot decode; otherwise it is the probe followed by the passes |
| Gls29ee512.Run | gls29ee512.py:50-97 | `main` returns the exit and trace, and leaves the file, exactly as the specification function `Program` says, including the end at an undecodable probe timeout |
| Gls29ee512.ImageGate | gls29ee512.py:54-61 | verify and write stop with "no such file" exactly for a missing file and with "wrong size" exactly for any size but 65536; the link is used exactly when the image is accepted; the file is not touched |
| Gls29ee512.OpensLink | gls29ee512.py:71-89 | with an accepted image `main` is the connection: it ends in success, an abort or an undecodable probe timeout, always with something on the trace |
| Gls29ee512.DumpRefusesOverwrite | gls29ee512.py:63-69 | dump refuses exactly when the file exists, then with nothing sent and the file untouched; otherwise it creates the file and uses the link |
| Gls29ee512.DumpSavesPagesRead | gls29ee512.py:91-97 | the dump file holds every complete page read, a multiple of 128 bytes; a short read (under 128 bytes) is not written and aborts; a successful dump is the full 65536 bytes read |
| Gls29ee512.DumpShortRead | gls29ee512.py:93-96 | a dump that aborts on a short read got fewer than 128 bytes |
| Gls29ee512.WriteSendsImage | gls29ee512.py:77-89 | a successful write sends the 512-page write script and then the 512-page verify script, two messages per page, and the payloads of each are the image |
| Gls29ee512.WholeScripts | gls29ee512.py:78-89 | both sweeps over a 65536-byte image have 1024 messages and their payloads reassemble the image |
| Gls29ee512.FailureLacksOk | gls29ee512.py:116-121 | a failed page ends `main` on the `>` response lacking `OK`, reported minus `ready>`; dump never fails this way |
| Gls29ee512.ShortReadMessageLosesPage | gls29ee512.py:92-95 | as written, two dumps that stop on short reads at pages 0 and 1, both with no bytes received, print the same message |
| Gls29ee512.DumpShortReadNamesPage | gls29ee512.py:93-95 | the corrected message names the page whose `read` command was the last thing sent |
| Gls29ee512.LastCommandOfShortRead | gls29ee512.py:92-96 | a dump run that stops on a short read last sent the `read` command of that page |
| Gls29ee512.ShortPage | gls29ee512.py:92-96 | a dump page answered with `#` and then silence ends the sweep with a short read at that page |
| Gls29ee512.WholePage | gls29ee512.py:92-97 | a dump page answered with `#`, 128 bytes and `>` completes and leaves the link after the `>` |
| Gls29ee512.Greeted | gls29ee512.py:71-97 | after a greeting whose only `>` is its last byte, `main` runs its passes on what follows, with the probe's wait first on the trace |
| Gls29ee512.WriteSucceeds | gls29ee512.py:77-89 | `write` against a programmer that accepts every page of both sweeps succeeds, sends the whole write script and then the whole verify script, and leaves the file alone |
| Gls29ee512.VerifyRejectsPage | gls29ee512.py:84-89 | `verify` against a programmer that refuses page k ends with that page's failure, reporting the refusal minus `ready>`, and sends the verify script through page k and no further |
| Gls29ee512.PageIterator | gls29ee512.py:100-121 | the loop over the offsets runs the pages in order and returns the outcome, trace, remaining arrivals and dump-file contents of `PagesFrom` from page 0 |
| Pages.NextPage | gls29ee512.py:109-113 | turn i handles offset i*128, page i, and either leaves the sweep from page i+1 to do or ends it |
| Pages.TransferPage | gls29ee512.py:109-121 | one iteration with `main`'s body at the yield does exactly the page transaction `PageSpec` |
| Pages.SendPage | gls29ee512.py:78-89 | a write or verify page: command, `#`, the page's slice, `>`, the `OK` check, exactly as `PageSpec` |
| Pages.ReceivePage | gls29ee512.py:92-97 | a dump page: command, `#`, `read(128)`, abort on a short read, otherwise append to the file before waiting for `>`, exactly as `PageSpec` |
| Pages.AwaitCompletion | gls29ee512.py:114-121 | the wait for `>` and the `OK` check classify the page as `Classify` says |
| Writer.SendAllPages | writer.py:40-59 | the inline loop is the sweep of a checked pass over `data`: outcome, trace and remaining arrivals of `PagesFrom` |
| Writer.Run | writer.py:15-37 | `main` returns the exit and trace of the specification function `Program` |
| Writer.FileGate | writer.py:23-28 | "no such file" exactly for a missing file; "wrong size" exactly for any size but 65536; the link is used exactly when the image is accepted |
| Writer.SweepsOverImage | writer.py:30-37 | with an accepted image the run is the connection (the probe, then the sweeps unless the probe ends it), following the scripts in order |
| Writer.VerifyFollowsWrite | writer.py:35-37 | with `--verify-only` everything sent is part of the verify script (all of it on success); otherwise a successful run sends the whole write script and then the whole verify script |
| Agreement.AgreesWithProgrammer | writer.py:15-37 | `writer.py` and `writer.py --verify-only` report and do on the link exactly what `gls29ee512.py write` and `gls29ee512.py verify` do |

## Left out

- Argument parsing, `--version` and `find_serial_device` (gls29ee512.py:19-52 and the discovery helper): the device is a given stream of arrivals.
- Baud rate and the pyserial port settings: the per-read timeout is a `Lull` in the arrival stream.
- Serial.ExpectSerial.Expect: `expect`'s wall-clock deadline of `TIMEOUT` seconds becomes a budget of `read()` calls per call. The model does not relate the budget to elapsed time.
- The tqdm progress bar and every message printed to stderr, including "continuing anyway". The model keeps the data those messages carry (the timeout buffer, the failing page, the diagnostic text).
- A `TimeoutError` raised during a page whose buffer cp1252 cannot decode raises `UnicodeDecodeError` instead (gls29ee512.py:138, writer.py:76). Either ends `main` with status 1; the model reports both as a `Timeout` abort. Only the probe's timeout, where the difference decides whether the run goes on, is modelled as `Undecodable`.
- The failure diagnostic's `decode('cp1252')` (gls29ee512.py:119, writer.py:57) can raise after "failed ... at page" is printed. The exit is 1 either way, and the model reports the page's `Failed` outcome.
- Exceptions and `sys.exit(1)` become values. A `TimeoutError`, a failed page and a short read end the run with an `Aborted` exit. A missing input file, which makes `open` raise, becomes `NoSuchFile`.
- Closing the port and the output file on exit: the model has no resource lifetimes.
- Real file I/O: a file is a value that is absent or holds bytes. The dump file is a `BinaryFile` object appended to in place.

## Findings

| source | as written | input that shows it | evidently intended | confidence | as-written member | corrected member |
|---|---|---|---|---|---|---|
| gls29ee512.py:92-95 | `main` never has the page index (its loop discards it as `_`), and `page` names the bytes `dev.read(PAGE_SIZE)` returned, so "Timed out reading page {page}" shows those bytes, not the page number | a dump whose `read(128)` returns no bytes at page 0, and another at page 1: both messages read "Timed out reading page b''" | the message names the page that came up short | not executed | Gls29ee512.ShortReadMessageLosesPage | Gls29ee512.DumpShortReadNamesPage |
