/** The GLS29EE512 programmer script: `page_iterator` together with the
    body that `main` runs at each of its yields, and `main` itself. */
module Gls29ee512 {
  import opened Bytes
  import opened Serial
  import opened Protocol
  import opened Session
  import opened Pages

  /** The `command` argument: `dump`, `verify` or `write`. */
  datatype Command = Dump | VerifyImage | WriteImage

  /** How `main` ends: the exit, everything the host did on the link, and
      the file named on the command line afterwards. */
  datatype Finish = Finish(exit: Exit, trace: seq<Event>, file: File)

  /** The sweeps `main` runs over an accepted image: `write` is followed by
      `verify`. */
  function ImagePasses(command: Command, image: seq<byte>): seq<Pass>
  {
    if command == WriteImage then [WritePass(image), VerifyPass(image)] else [VerifyPass(image)]
  }

  /** `main` once the command line is parsed. `verify` and `write` read the
      input file first and give up on a missing file or one that does not
      hold exactly `ROM_SIZE` bytes; `dump` gives up when the output file
      exists and otherwise creates it empty. Only then is the link opened,
      probed for `>` and swept. */
  function Program(command: Command, file: File, device: seq<Arrival>, deadline: nat): Finish
  {
    if command == Dump then
      if file.Present? then Finish(RefusedOverwrite, [], file)
      else
        var r := Connect([DumpPass()], deadline, device);
        Finish(r.exit, r.events, Present(r.output))
    else if file.Absent? then Finish(NoSuchFile, [], file)
    else
      match CheckedImage(file.content)
      case None => Finish(WrongSize, [], file)
      case Some(image) =>
        var r := Connect(ImagePasses(command, image), deadline, device);
        Finish(r.exit, r.events, file)
  }

  /** `main`: `device` is what the programmer will send once the port is
      open; `trace` is everything the host does on the port. */
  method Run(command: Command, file: File, device: seq<Arrival>, deadline: nat) returns (exit: Exit, trace: seq<Event>, after: File)
    ensures Finish(exit, trace, after) == Program(command, file, device, deadline)
  {
    var inputData: seq<byte> := [];
    if command == VerifyImage || command == WriteImage {
      if file.Absent? {
        return NoSuchFile, [], file;
      }
      var data := ReadAt(file.content, 0, ROM_SIZE);
      var more := ReadAt(file.content, |data|, 1);
      if |data| != ROM_SIZE || |more| != 0 {
        return WrongSize, [], file;
      }
      inputData := data;
    }
    var outputFile: BinaryFile? := null;
    if command == Dump {
      if file.Present? {
        return RefusedOverwrite, [], file;
      }
      outputFile := new BinaryFile();
    }
    var dev := new ExpectSerial(device);
    // The probe's `TimeoutError` is reported and ignored, unless building
    // its message fails to decode the buffer as cp1252.
    var probe := dev.Expect([[PROMPT]], deadline);
    ghost var s := dev.incoming;
    ghost var probed := dev.log;
    assert probed == [Awaited(probe)];
    after := file;
    if probe.TimedOut? && !DecodesCp1252(probe.buf) {
      if command == Dump {
        after := Present(outputFile.content);
      }
      return Undecodable(probe.buf), dev.log, after;
    }
    if command == WriteImage {
      ghost var x := PagesFrom(WritePass(inputData), deadline, 0, s);
      var outcome := PageIterator(dev, null, WritePass(inputData), deadline);
      if outcome != Completed {
        PassesStopEarly(WritePass(inputData), VerifyPass(inputData), deadline, s);
        return Aborted(Write, outcome), dev.log, after;
      }
      ghost var y := PagesFrom(VerifyPass(inputData), deadline, 0, x.rest);
      outcome := PageIterator(dev, null, VerifyPass(inputData), deadline);
      PassesOfTwo(WritePass(inputData), VerifyPass(inputData), deadline, s);
      Regroup(probed, x.events, y.events);
      if outcome != Completed {
        return Aborted(Verify, outcome), dev.log, after;
      }
    } else if command == VerifyImage {
      var outcome := PageIterator(dev, null, VerifyPass(inputData), deadline);
      PassesOfOne(VerifyPass(inputData), deadline, s);
      if outcome != Completed {
        return Aborted(Verify, outcome), dev.log, after;
      }
    } else {
      var outcome := PageIterator(dev, outputFile, DumpPass(), deadline);
      PassesOfOne(DumpPass(), deadline, s);
      assert outputFile.content == PagesFrom(DumpPass(), deadline, 0, s).output;
      after := Present(outputFile.content);
      if outcome != Completed {
        return Aborted(Read, outcome), dev.log, after;
      }
    }
    return Success, dev.log, after;
  }

  /** `verify` and `write` open the link only for an input file of exactly
      `ROM_SIZE` bytes: a missing file or one of any other size ends `main`
      before anything happens on the link, leaving the file alone. */
  lemma ImageGate(command: Command, file: File, device: seq<Arrival>, deadline: nat)
    requires command != Dump
    ensures var f := Program(command, file, device, deadline);
      && (f.exit == NoSuchFile <==> file.Absent?)
      && (f.exit == WrongSize <==> file.Present? && |file.content| != ROM_SIZE)
      && (f.trace == [] <==> file.Absent? || |file.content| != ROM_SIZE)
      && f.file == file
      && f.exit != RefusedOverwrite
  {
    if file.Present? && |file.content| == ROM_SIZE {
      OpensLink(command, file, device, deadline);
    }
  }

  /** With an image of the right size the run is the connection itself. */
  lemma OpensLink(command: Command, file: File, device: seq<Arrival>, deadline: nat)
    requires command != Dump && file.Present? && |file.content| == ROM_SIZE
    ensures var r := Connect(ImagePasses(command, file.content), deadline, device);
      && Program(command, file, device, deadline) == Finish(r.exit, r.events, file)
      && (r.exit.Success? || r.exit.Aborted? || r.exit.Undecodable?) && r.events != []
  {
    assert CheckedImage(file.content) == Some(file.content);
    var passes := ImagePasses(command, file.content);
    ConnectFollowsPlan(passes, deadline, device);
    var probe := ExpectSpec(device, [[PROMPT]], deadline);
    var r := Passes(passes, deadline, probe.rest);
    assert Connect(passes, deadline, device).events[0] == Awaited(probe.prompt);
  }

  /** A failed page ends `main` on the `>` response that lacks `b'OK'`, the
      last thing the host saw; the diagnostic printed is that response
      without `ready>`. `dump` has no check and never fails this way. */
  lemma FailureLacksOk(command: Command, file: File, device: seq<Arrival>, deadline: nat)
    ensures var f := Program(command, file, device, deadline);
      f.exit.Aborted? && f.exit.outcome.Failed? ==>
        && command != Dump
        && EndsOnMissingOk(LinkRun(f.exit, f.trace, []))
  {
    var f := Program(command, file, device, deadline);
    if command == Dump {
      if file.Absent? {
        var probe := ExpectSpec(device, [[PROMPT]], deadline);
        PassesOfOne(DumpPass(), deadline, probe.rest);
        FailureIsMissingOk(DumpPass(), deadline, 0, probe.rest);
      }
    } else if file.Present? && |file.content| == ROM_SIZE {
      OpensLink(command, file, device, deadline);
      ConnectEndsOnMissingOk(ImagePasses(command, file.content), deadline, device);
    }
  }

  /** What `main`'s short-read message names, as written: `main`'s dump
      loop discards what `page_iterator` yields (`for _ in ...`), and `page`
      names the bytes `read(128)` returned, so the message shows those
      bytes and not the page number. */
  function ShortReadSubjectAsWritten(o: Outcome): seq<byte>
    requires o.ShortRead?
  {
    o.got
  }

  /** The same message naming the page index, as the error is meant to. */
  function ShortReadSubject(o: Outcome): nat
    requires o.ShortRead?
  {
    o.page
  }

  /** Two dumps that stop on a short read with nothing received: one at
      page 0, and one at page 1 after page 0 arrived whole. The runs end at
      different pages, yet the message as written is the same for both: the
      page is lost. */
  lemma ShortReadMessageLosesPage(greeting: seq<byte>, block: seq<byte>, deadline: nat)
    requires EndsOnlyWith(greeting, PROMPT) && |greeting| <= deadline && 1 <= deadline
    requires |block| == PAGE_SIZE
    ensures var a := Program(Dump, Absent, Arrivals(greeting) + (Arrivals([HASH]) + [Lull]), deadline);
      var b := Program(Dump, Absent, Arrivals(greeting) + (Arrivals([HASH]) + (Arrivals(block) + (Arrivals([PROMPT]) + (Arrivals([HASH]) + [Lull])))), deadline);
      && a.exit == Aborted(Read, ShortRead(0, []))
      && b.exit == Aborted(Read, ShortRead(1, []))
      && ShortReadSubject(a.exit.outcome) != ShortReadSubject(b.exit.outcome)
      && ShortReadSubjectAsWritten(a.exit.outcome) == ShortReadSubjectAsWritten(b.exit.outcome)
  {
    var short := Arrivals([HASH]) + [Lull];
    ShortPage(0, deadline);
    Greeted(Dump, Absent, greeting, short, deadline);
    PassesOfOne(DumpPass(), deadline, short);
    var whole := Arrivals([HASH]) + (Arrivals(block) + (Arrivals([PROMPT]) + short));
    WholePage(0, block, short, deadline);
    ShortPage(1, deadline);
    assert PagesFrom(DumpPass(), deadline, 0, whole).outcome == ShortRead(1, []);
    Greeted(Dump, Absent, greeting, whole, deadline);
    PassesOfOne(DumpPass(), deadline, whole);
  }

  /** A dump page answered with `#` and then silence ends the sweep with a
      short read at that page. */
  lemma ShortPage(page: nat, deadline: nat)
    requires page < PAGE_COUNT && 1 <= deadline
    ensures PagesFrom(DumpPass(), deadline, page, Arrivals([HASH]) + [Lull]).outcome == ShortRead(page, [])
  {
    var s := Arrivals([HASH]) + [Lull];
    ExpectHearsReply([HASH], HASH, [Lull], deadline);
    assert Take([Lull], PAGE_SIZE).data == [];
    NothingRead(DumpPass(), deadline, page, ExpectSpec(s, [[HASH]], deadline));
    var st := PageSpec(DumpPass(), deadline, page, s);
    assert Stop(page, st.result) == ShortRead(page, []);
  }

  /** A dump page whose `read(128)` after `#` returns nothing is short. */
  lemma NothingRead(pass: Pass, deadline: nat, page: nat, ready: Heard)
    requires pass.body.Receive? && ready.prompt.Matched? && Take(ready.rest, PAGE_SIZE).data == []
    ensures AfterReady(pass, deadline, page, ready).result == PageShort([])
  {
  }

  /** A dump page answered with `#`, 128 bytes and `>` completes, leaving
      the link just after the `>`. */
  lemma WholePage(page: nat, block: seq<byte>, rest: seq<Arrival>, deadline: nat)
    requires |block| == PAGE_SIZE && 1 <= deadline
    ensures var st := PageSpec(DumpPass(), deadline, page, Arrivals([HASH]) + (Arrivals(block) + (Arrivals([PROMPT]) + rest)));
      st.result == PageDone && st.rest == rest
  {
    var r2 := Arrivals([PROMPT]) + rest;
    var s := Arrivals([HASH]) + (Arrivals(block) + r2);
    ExpectHearsReply([HASH], HASH, Arrivals(block) + r2, deadline);
    TakeWhole(block, r2);
    ExpectHearsReply([PROMPT], PROMPT, rest, deadline);
    WholeRead(DumpPass(), deadline, page, ExpectSpec(s, [[HASH]], deadline));
  }

  /** A dump page whose `read(128)` after `#` returns all 128 bytes and
      whose wait for `>` then matches completes where that wait left off. */
  lemma WholeRead(pass: Pass, deadline: nat, page: nat, ready: Heard)
    requires pass.body.Receive? && !pass.verify && ready.prompt.Matched?
    requires |Take(ready.rest, PAGE_SIZE).data| == PAGE_SIZE
    requires ExpectSpec(Take(ready.rest, PAGE_SIZE).rest, [[PROMPT]], deadline).prompt.Matched?
    ensures var st := AfterReady(pass, deadline, page, ready);
      st.result == PageDone && st.rest == ExpectSpec(Take(ready.rest, PAGE_SIZE).rest, [[PROMPT]], deadline).rest
  {
  }

  /** Once the programmer has greeted with a text whose only `>` is its
      last byte, `main` runs its sweeps on what follows, the greeting's wait
      being the first thing on the trace. */
  lemma Greeted(command: Command, file: File, greeting: seq<byte>, rest: seq<Arrival>, deadline: nat)
    requires EndsOnlyWith(greeting, PROMPT) && |greeting| <= deadline
    requires if command == Dump then file.Absent? else file.Present? && |file.content| == ROM_SIZE
    ensures var passes := if command == Dump then [DumpPass()] else ImagePasses(command, file.content);
      var r := Passes(passes, deadline, rest);
      var f := Program(command, file, Arrivals(greeting) + rest, deadline);
      && f.exit == r.exit
      && f.trace == [Awaited(Matched(greeting))] + r.events
      && SentOf(f.trace) == SentOf(r.events)
      && f.file == (if command == Dump then Present(r.output) else file)
  {
    var device := Arrivals(greeting) + rest;
    ExpectHearsReply(greeting, PROMPT, rest, deadline);
    var passes := if command == Dump then [DumpPass()] else ImagePasses(command, file.content);
    ProbeMatched(passes, deadline, device);
    var r := Passes(passes, deadline, rest);
    if command != Dump {
      assert CheckedImage(file.content) == Some(file.content);
    }
    TraceOne(Awaited(Matched(greeting)));
    TraceAppend([Awaited(Matched(greeting))], r.events);
  }

  /** A probe that hears `>` leaves the run to the sweeps. */
  lemma ProbeMatched(passes: seq<Pass>, deadline: nat, device: seq<Arrival>)
    requires ExpectSpec(device, [[PROMPT]], deadline).prompt.Matched?
    ensures var probe := ExpectSpec(device, [[PROMPT]], deadline);
      var r := Passes(passes, deadline, probe.rest);
      Connect(passes, deadline, device) == LinkRun(r.exit, [Awaited(probe.prompt)] + r.events, r.output)
  {
  }

  /** A programmer that greets with a text whose only `>` is its last byte
      and answers every page of both sweeps with `#` and a completion text
      holding `OK`: `write` succeeds, having sent the whole write script
      and then the whole verify script, and leaves the file alone. */
  lemma WriteSucceeds(image: seq<byte>, greeting: seq<byte>, reply: seq<byte>, tail: seq<Arrival>, deadline: nat)
    requires |image| == ROM_SIZE
    requires EndsOnlyWith(greeting, PROMPT) && EndsOnlyWith(reply, PROMPT) && Contains(reply, OK)
    requires 1 <= deadline && |greeting| <= deadline && |reply| <= deadline
    ensures var device := Arrivals(greeting) + (Answers(reply, 0, PAGE_COUNT) + (Answers(reply, 0, PAGE_COUNT) + tail));
      var f := Program(WriteImage, Present(image), device, deadline);
      && f.exit == Success && f.file == Present(image)
      && SentOf(f.trace) == Script(WritePass(image), 0, PAGE_COUNT) + Script(VerifyPass(image), 0, PAGE_COUNT)
  {
    var second := Answers(reply, 0, PAGE_COUNT) + tail;
    var rest := Answers(reply, 0, PAGE_COUNT) + second;
    AnsweredSweep(WritePass(image), deadline, reply, second);
    AnsweredSweep(VerifyPass(image), deadline, reply, tail);
    PassesOfTwo(WritePass(image), VerifyPass(image), deadline, rest);
    Greeted(WriteImage, Present(image), greeting, rest, deadline);
    WriteSendsImage(Present(image), Arrivals(greeting) + rest, deadline);
  }

  /** A programmer that accepts pages 0 .. k-1 of `verify` and answers page
      k with a completion text lacking `OK`: `main` ends with that page's
      failure, reporting the text minus `ready>`, having sent the verify
      script up to and including page k. */
  lemma VerifyRejectsPage(image: seq<byte>, greeting: seq<byte>, reply: seq<byte>, refusal: seq<byte>, k: nat, tail: seq<Arrival>, deadline: nat)
    requires |image| == ROM_SIZE && k < PAGE_COUNT
    requires EndsOnlyWith(greeting, PROMPT) && EndsOnlyWith(reply, PROMPT) && Contains(reply, OK)
    requires EndsOnlyWith(refusal, PROMPT) && !Contains(refusal, OK)
    requires 1 <= deadline && |greeting| <= deadline && |reply| <= deadline && |refusal| <= deadline
    ensures var device := Arrivals(greeting) + (Answers(reply, 0, k) + (Answer(refusal) + tail));
      var f := Program(VerifyImage, Present(image), device, deadline);
      && f.exit == Aborted(Verify, Failed(k, StripReady(refusal))) && f.file == Present(image)
      && SentOf(f.trace) == Script(VerifyPass(image), 0, k + 1)
  {
    var rest := Answers(reply, 0, k) + (Answer(refusal) + tail);
    RejectedAt(VerifyPass(image), deadline, reply, refusal, k, tail);
    VerifyAfterGreeting(image, greeting, rest, deadline);
  }

  /** `verify` after the greeting is its one sweep. */
  lemma VerifyAfterGreeting(image: seq<byte>, greeting: seq<byte>, rest: seq<Arrival>, deadline: nat)
    requires |image| == ROM_SIZE && EndsOnlyWith(greeting, PROMPT) && |greeting| <= deadline
    ensures var x := PagesFrom(VerifyPass(image), deadline, 0, rest);
      var f := Program(VerifyImage, Present(image), Arrivals(greeting) + rest, deadline);
      && f.exit == ExitOf(VerifyPass(image), x.outcome) && f.file == Present(image)
      && SentOf(f.trace) == SentOf(x.events)
  {
    PassesOfOne(VerifyPass(image), deadline, rest);
    assert ImagePasses(VerifyImage, image) == [VerifyPass(image)];
    Greeted(VerifyImage, Present(image), greeting, rest, deadline);
  }

  /** A dump that stops on a short read names the page whose `read` command
      was the last thing sent. */
  lemma DumpShortReadNamesPage(file: File, device: seq<Arrival>, deadline: nat)
    requires file.Absent?
    ensures var f := Program(Dump, file, device, deadline);
      f.exit.Aborted? && f.exit.outcome.ShortRead? ==>
        var sent := SentOf(f.trace);
        |sent| > 0 && sent[|sent| - 1] == CommandLine(Read, ShortReadSubject(f.exit.outcome))
  {
    var r := Connect([DumpPass()], deadline, device);
    assert Program(Dump, file, device, deadline) == Finish(r.exit, r.events, Present(r.output));
    ConnectFollowsPlan([DumpPass()], deadline, device);
    if r.exit.Aborted? && r.exit.outcome.ShortRead? {
      LastCommandOfShortRead(r);
    }
  }

  lemma LastCommandOfShortRead(r: LinkRun)
    requires FollowsPlan([DumpPass()], r) && r.exit.Aborted? && r.exit.outcome.ShortRead?
    ensures var sent := SentOf(r.events);
      |sent| > 0 && sent[|sent| - 1] == CommandLine(Read, r.exit.outcome.page)
  {
    var k := r.exit.outcome.page;
    var i :| 0 <= i < |[DumpPass()]| && [DumpPass()][i].command == r.exit.command &&
      SentOf(r.events) == Plan([DumpPass()][..i]) + Script([DumpPass()][i], 0, k + 1);
    assert i == 0 && [DumpPass()][..0] == [];
    assert SentOf(r.events) == Script(DumpPass(), 0, k + 1);
    ScriptLayout(DumpPass(), 0, k + 1, k);
  }

  /** `dump` never overwrites: when the output file exists `main` ends with
      nothing done on the link and the file untouched; otherwise it always
      proceeds to the link. */
  lemma DumpRefusesOverwrite(file: File, device: seq<Arrival>, deadline: nat)
    ensures var f := Program(Dump, file, device, deadline);
      && (f.exit == RefusedOverwrite <==> file.Present?)
      && (file.Present? ==> f.trace == [] && f.file == file)
      && (file.Absent? ==> f.trace != [] && f.file.Present?)
  {
    if file.Absent? {
      ConnectFollowsPlan([DumpPass()], deadline, device);
    }
  }

  /** What a dump leaves on disk: the bytes of every complete `read(128)`
      in the order they were read, a whole number of pages; a short read
      is not written and ends the dump; a completed dump is the whole
      65536-byte image read. */
  lemma DumpSavesPagesRead(file: File, device: seq<Arrival>, deadline: nat)
    requires file.Absent?
    ensures var f := Program(Dump, file, device, deadline);
      && f.file.Present? && |f.file.content| % PAGE_SIZE == 0
      && GotOf(f.trace) == f.file.content + (if f.exit.Aborted? && f.exit.outcome.ShortRead? then f.exit.outcome.got else [])
      && (f.exit.Aborted? && f.exit.outcome.ShortRead? ==> |f.exit.outcome.got| < PAGE_SIZE)
      && (f.exit == Success ==> |f.file.content| == ROM_SIZE && f.file.content == GotOf(f.trace))
  {
    ReceiveWritesWhatItRead(DumpPass(), deadline, device);
    ConnectFollowsPlan([DumpPass()], deadline, device);
    var r := Connect([DumpPass()], deadline, device);
    if r.exit.Aborted? && r.exit.outcome.ShortRead? {
      DumpShortRead(deadline, device);
    }
  }

  lemma DumpShortRead(deadline: nat, device: seq<Arrival>)
    ensures var r := Connect([DumpPass()], deadline, device);
      r.exit.Aborted? && r.exit.outcome.ShortRead? ==> |r.exit.outcome.got| < PAGE_SIZE
  {
    var probe := ExpectSpec(device, [[PROMPT]], deadline);
    var x := PagesFrom(DumpPass(), deadline, 0, probe.rest);
    PagesOutput(DumpPass(), deadline, 0, probe.rest);
    PassesOfOne(DumpPass(), deadline, probe.rest);
  }

  /** A successful `write` sends the 512 pages of the write pass and then
      the 512 pages of the verify pass, in ascending order, each command
      line followed by its page's slice of the image; the slices of either
      pass put together are the image itself. */
  lemma WriteSendsImage(file: File, device: seq<Arrival>, deadline: nat)
    requires Program(WriteImage, file, device, deadline).exit == Success
    ensures file.Present? && |file.content| == ROM_SIZE
    ensures var sent := SentOf(Program(WriteImage, file, device, deadline).trace);
      var w := Script(WritePass(file.content), 0, PAGE_COUNT);
      var v := Script(VerifyPass(file.content), 0, PAGE_COUNT);
      && sent == w + v
      && |w| == 2 * PAGE_COUNT && |v| == 2 * PAGE_COUNT
      && Payloads(w) == file.content && Payloads(v) == file.content
  {
    ImageGate(WriteImage, file, device, deadline);
    var image := file.content;
    var passes := [WritePass(image), VerifyPass(image)];
    assert ImagePasses(WriteImage, image) == passes;
    OpensLink(WriteImage, file, device, deadline);
    var r := Connect(passes, deadline, device);
    ConnectFollowsPlan(passes, deadline, device);
    assert SentOf(r.events) == Plan(passes);
    PlanOfTwo(passes[0], passes[1]);
    WholeScripts(image);
  }

  /** Both sweeps over an image of `ROM_SIZE` bytes: two messages per page,
      and the payloads put back together are the image. */
  lemma WholeScripts(image: seq<byte>)
    requires |image| == ROM_SIZE
    ensures var w := Script(WritePass(image), 0, PAGE_COUNT);
      var v := Script(VerifyPass(image), 0, PAGE_COUNT);
      && |w| == 2 * PAGE_COUNT && |v| == 2 * PAGE_COUNT
      && Payloads(w) == image && Payloads(v) == image
  {
    ScriptLength(WritePass(image), 0, PAGE_COUNT);
    ScriptLength(VerifyPass(image), 0, PAGE_COUNT);
    PayloadsReassemble(WritePass(image), 0, PAGE_COUNT);
    PayloadsReassemble(VerifyPass(image), 0, PAGE_COUNT);
    assert image[0 * PAGE_SIZE..PAGE_COUNT * PAGE_SIZE] == image;
  }

  /** `page_iterator` driven by one of `main`'s loops: the offsets 0, 128,
      ..., 65408 in order, one page transaction each, until a page does not
      complete. `out` is the dump file, `None` in Python for write and
      verify; a dump page is appended to it as soon as it is read. A
      rejected page ends the run with the response minus `ready>`; a short
      read or a `TimeoutError` ends it as well. */
  method PageIterator(dev: ExpectSerial, out: BinaryFile?, pass: Pass, deadline: nat) returns (outcome: Outcome)
    requires pass.body.Receive? ==> out != null
    modifies dev, out
    ensures var x := PagesFrom(pass, deadline, 0, old(dev.incoming));
      && outcome == x.outcome
      && dev.incoming == x.rest && dev.log == old(dev.log) + x.events
      && (out != null ==> out.content == old(out.content) + x.output)
  {
    ghost var goal := PagesFrom(pass, deadline, 0, dev.incoming);
    ghost var log0 := dev.log;
    ghost var file0 := if out != null then out.content else [];
    ghost var done: seq<Event> := [];
    ghost var output: seq<byte> := [];
    for i := 0 to PAGE_COUNT
      invariant dev.log == log0 + done
      invariant out != null ==> out.content == file0 + output
      invariant Resumed(done, output, PagesFrom(pass, deadline, i, dev.incoming)) == goal
    {
      var page, result;
      page, result, done, output := NextPage(dev, out, pass, deadline, i, goal, log0, file0, done, output);
      if !result.PageDone? {
        outcome := Stop(page, result);
        return;
      }
    }
    SweepEnds(pass, deadline, dev.incoming, done, output);
    outcome := Completed;
  }
}
