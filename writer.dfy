/** The older writer script: `send_all_pages` with its page loop written
    out inline, and `main`, which writes an image and then verifies it, or
    only verifies it. */
module Writer {
  import opened Bytes
  import opened Serial
  import opened Protocol
  import opened Session
  import opened Pages

  /** The sweeps `main` runs: `write` then `verify`, or `verify` alone with
      `--verify-only`. */
  function WriterPasses(verifyOnly: bool, image: seq<byte>): seq<Pass>
  {
    if verifyOnly then [VerifyPass(image)] else [WritePass(image), VerifyPass(image)]
  }

  /** How `main` ends: the exit and everything the host did on the link.
      The file is only read. */
  datatype Finish = Finish(exit: Exit, trace: seq<Event>)

  /** `main` once the command line is parsed: read the file, give up on a
      missing file or one that does not hold exactly `ROM_SIZE` bytes,
      otherwise open the link, probe it for `>` and run the sweeps. */
  function Program(verifyOnly: bool, file: File, device: seq<Arrival>, deadline: nat): Finish
  {
    if file.Absent? then Finish(NoSuchFile, [])
    else
      match CheckedImage(file.content)
      case None => Finish(WrongSize, [])
      case Some(image) =>
        var r := Connect(WriterPasses(verifyOnly, image), deadline, device);
        Finish(r.exit, r.events)
  }

  /** `send_all_pages`: for each offset `0, 128, ..., 65408` send the
      command line for its page, wait for `#`, send the page's slice of
      `data`, wait for `>` and stop unless `b'OK'` is in the response; a
      `TimeoutError` stops it as well. It is the sweep of a checked pass
      with `data` as its image. */
  method SendAllPages(dev: ExpectSerial, data: seq<byte>, command: Verb, deadline: nat) returns (outcome: Outcome)
    modifies dev
    ensures var x := PagesFrom(Pass(command, Send(data), true), deadline, 0, old(dev.incoming));
      && outcome == x.outcome
      && dev.incoming == x.rest && dev.log == old(dev.log) + x.events
  {
    var pass := Pass(command, Send(data), true);
    ghost var goal := PagesFrom(pass, deadline, 0, dev.incoming);
    ghost var log0 := dev.log;
    ghost var done: seq<Event> := [];
    ghost var output: seq<byte> := [];
    for i := 0 to PAGE_COUNT
      invariant dev.log == log0 + done
      invariant Resumed(done, output, PagesFrom(pass, deadline, i, dev.incoming)) == goal
    {
      var page, result;
      page, result, done, output := NextPage(dev, null, pass, deadline, i, goal, log0, [], done, output);
      if !result.PageDone? {
        outcome := Stop(page, result);
        return;
      }
    }
    SweepEnds(pass, deadline, dev.incoming, done, output);
    outcome := Completed;
  }

  /** `main`: `device` is what the programmer will send once the port is
      open; `trace` is everything the host does on the port. */
  method Run(verifyOnly: bool, file: File, device: seq<Arrival>, deadline: nat) returns (exit: Exit, trace: seq<Event>)
    ensures Finish(exit, trace) == Program(verifyOnly, file, device, deadline)
  {
    if file.Absent? {
      return NoSuchFile, [];
    }
    var data := ReadAt(file.content, 0, ROM_SIZE);
    var more := ReadAt(file.content, |data|, 1);
    if |data| != ROM_SIZE || |more| != 0 {
      return WrongSize, [];
    }
    var dev := new ExpectSerial(device);
    // The probe's `TimeoutError` is reported and ignored, unless building
    // its message fails to decode the buffer as cp1252.
    var probe := dev.Expect([[PROMPT]], deadline);
    ghost var s := dev.incoming;
    ghost var probed := dev.log;
    assert probed == [Awaited(probe)];
    if probe.TimedOut? && !DecodesCp1252(probe.buf) {
      return Undecodable(probe.buf), dev.log;
    }
    if !verifyOnly {
      ghost var x := PagesFrom(WritePass(data), deadline, 0, s);
      var outcome := SendAllPages(dev, data, Write, deadline);
      if outcome != Completed {
        PassesStopEarly(WritePass(data), VerifyPass(data), deadline, s);
        return Aborted(Write, outcome), dev.log;
      }
      ghost var y := PagesFrom(VerifyPass(data), deadline, 0, x.rest);
      outcome := SendAllPages(dev, data, Verify, deadline);
      PassesOfTwo(WritePass(data), VerifyPass(data), deadline, s);
      Regroup(probed, x.events, y.events);
      if outcome != Completed {
        return Aborted(Verify, outcome), dev.log;
      }
    } else {
      var outcome := SendAllPages(dev, data, Verify, deadline);
      PassesOfOne(VerifyPass(data), deadline, s);
      if outcome != Completed {
        return Aborted(Verify, outcome), dev.log;
      }
    }
    return Success, dev.log;
  }

  /** The link is opened only for a file of exactly `ROM_SIZE` bytes: a
      missing file or one of any other size ends `main` with nothing done
      on the link. */
  lemma FileGate(verifyOnly: bool, file: File, device: seq<Arrival>, deadline: nat)
    ensures var f := Program(verifyOnly, file, device, deadline);
      && (f.exit == NoSuchFile <==> file.Absent?)
      && (f.exit == WrongSize <==> file.Present? && |file.content| != ROM_SIZE)
      && (f.trace == [] <==> file.Absent? || |file.content| != ROM_SIZE)
  {
    if file.Present? && |file.content| == ROM_SIZE {
      SweepsOverImage(verifyOnly, file, device, deadline);
    }
  }

  /** With an image of the right size the run is the connection itself:
      the probe first, then, unless the probe's timeout message cannot be
      decoded, the sweeps, each stopping the run unless it completes. */
  lemma SweepsOverImage(verifyOnly: bool, file: File, device: seq<Arrival>, deadline: nat)
    requires file.Present? && |file.content| == ROM_SIZE
    ensures var f := Program(verifyOnly, file, device, deadline);
      var r := Connect(WriterPasses(verifyOnly, file.content), deadline, device);
      && f == Finish(r.exit, r.events)
      && FollowsPlan(WriterPasses(verifyOnly, file.content), r)
      && f.trace != []
  {
    assert CheckedImage(file.content) == Some(file.content);
    var passes := WriterPasses(verifyOnly, file.content);
    ConnectFollowsPlan(passes, deadline, device);
    var probe := ExpectSpec(device, [[PROMPT]], deadline);
    assert Connect(passes, deadline, device).events[0] == Awaited(probe.prompt);
  }

  /** The verify sweep always runs on an accepted image: with
      `--verify-only` everything sent is part of the verify script, and
      otherwise a successful run sent the whole write script and then the
      whole verify script. */
  lemma VerifyFollowsWrite(verifyOnly: bool, file: File, device: seq<Arrival>, deadline: nat)
    requires file.Present? && |file.content| == ROM_SIZE
    ensures var r := Program(verifyOnly, file, device, deadline);
      var w := Script(WritePass(file.content), 0, PAGE_COUNT);
      var v := Script(VerifyPass(file.content), 0, PAGE_COUNT);
      && (verifyOnly ==> SentOf(r.trace) <= v && (r.exit == Success ==> SentOf(r.trace) == v))
      && (!verifyOnly && r.exit == Success ==> SentOf(r.trace) == w + v)
  {
    SweepsOverImage(verifyOnly, file, device, deadline);
    var image := file.content;
    if verifyOnly {
      assert [VerifyPass(image)][1..] == [];
      assert Plan([VerifyPass(image)]) == Script(VerifyPass(image), 0, PAGE_COUNT) + [];
    } else {
      PlanOfTwo(WritePass(image), VerifyPass(image));
    }
  }
}
