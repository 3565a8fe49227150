/** One page transaction as both scripts run it: `page_iterator` in
    `gls29ee512.py` with the body `main` runs at its yield, and the loop
    body of `send_all_pages` in `writer.py`, which is the same code for a
    write or verify page. */
module Pages {
  import opened Bytes
  import opened Serial
  import opened Protocol
  import opened Session

  /** The `i`-th turn of the loop over `range(0, ROM_SIZE, PAGE_SIZE)`: the
      offset `i * PAGE_SIZE`, its page index `offset // PAGE_SIZE`, which is
      `i`, and the transaction for that page. The ghost parameters say what
      the earlier turns did (`done`, `output`) towards the whole sweep
      `goal`: a completed page adds its part and leaves the sweep from page
      `i + 1` to do; any other page ends the sweep. */
  method NextPage(dev: ExpectSerial, out: BinaryFile?, pass: Pass, deadline: nat, i: nat, ghost goal: Transfer,
                  ghost log0: seq<Event>, ghost file0: seq<byte>, ghost done: seq<Event>, ghost output: seq<byte>)
    returns (page: nat, result: PageResult, ghost done': seq<Event>, ghost output': seq<byte>)
    requires i < PAGE_COUNT
    requires pass.body.Receive? ==> out != null
    requires dev.log == log0 + done && (out != null ==> out.content == file0 + output)
    requires Resumed(done, output, PagesFrom(pass, deadline, i, dev.incoming)) == goal
    modifies dev, out
    ensures page == i
    ensures dev.log == log0 + done' && (out != null ==> out.content == file0 + output')
    ensures result.PageDone? ==> Resumed(done', output', PagesFrom(pass, deadline, i + 1, dev.incoming)) == goal
    ensures !result.PageDone? ==> goal == Transfer(Stop(i, result), done', output', dev.incoming)
  {
    var offset := i * PAGE_SIZE;
    PageOffset(i);
    page := offset / PAGE_SIZE;
    ghost var st := PageSpec(pass, deadline, page, dev.incoming);
    ResumeStep(pass, deadline, page, dev.incoming, st, done, output);
    result := TransferPage(dev, out, pass, deadline, offset, st);
    Regroup(log0, done, st.events);
    Regroup(file0, output, st.written);
    done', output' := done + st.events, output + st.written;
  }

  /** One iteration of `page_iterator` with the body of `main`'s loop at the
      yield: send the command line, wait for `#`, send the payload slice
      (write, verify) or read the page and append it to the dump file, wait
      for `>`, check for `b'OK'`. */
  method TransferPage(dev: ExpectSerial, out: BinaryFile?, pass: Pass, deadline: nat, offset: nat, ghost st: PageStep)
    returns (result: PageResult)
    requires offset % PAGE_SIZE == 0
    requires pass.body.Receive? ==> out != null
    requires st == PageSpec(pass, deadline, offset / PAGE_SIZE, dev.incoming)
    modifies dev, out
    ensures result == st.result
      && dev.incoming == st.rest && dev.log == old(dev.log) + st.events
      && (out != null ==> out.content == old(out.content) + st.written)
  {
    if pass.body.Send? {
      result := SendPage(dev, pass, deadline, offset, st);
      SendWritesNothing(pass, deadline, offset / PAGE_SIZE, old(dev.incoming));
      if out != null {
        assert out.content + [] == out.content;
      }
    } else {
      result := ReceivePage(dev, out, pass, deadline, offset, st);
    }
  }

  lemma SendWritesNothing(pass: Pass, deadline: nat, page: nat, s: seq<Arrival>)
    requires pass.body.Send?
    ensures PageSpec(pass, deadline, page, s).written == []
  {
    PageFacts(pass, deadline, page, s);
  }

  /** A write or verify page: `main` sends `input_data[offset:offset + PAGE_SIZE]`
      at the yield. */
  method SendPage(dev: ExpectSerial, pass: Pass, deadline: nat, offset: nat, ghost st: PageStep) returns (result: PageResult)
    requires offset % PAGE_SIZE == 0 && pass.body.Send?
    requires st == PageSpec(pass, deadline, offset / PAGE_SIZE, dev.incoming)
    modifies dev
    ensures result == st.result && dev.incoming == st.rest && dev.log == old(dev.log) + st.events
  {
    var page := offset / PAGE_SIZE;
    ghost var s := dev.incoming;
    var line := CommandLine(pass.command, page);
    dev.Write(line);
    var ready := dev.Expect([[HASH]], deadline);
    ghost var h := Heard(ready, dev.incoming);
    ghost var waited := [Sent(line), Awaited(ready)];
    assert dev.log == old(dev.log) + waited;
    if ready.TimedOut? {
      ReadyTimedOut(pass, deadline, page, s, h);
      return PageTimeout(ready.buf);
    }
    var payload := Slice(pass.body.image, offset, offset + PAGE_SIZE);
    assert payload == PagePayload(pass.body.image, page);
    dev.Write(payload);
    ghost var events := waited + [Sent(payload)];
    assert dev.log == old(dev.log) + events;
    PageClassified(pass, deadline, page, s, h, events, [], dev.incoming);
    result := AwaitCompletion(dev, pass, deadline, old(dev.log), events, []);
  }

  /** A dump page: `main` reads the page at the yield, aborts on a short
      read and otherwise writes it to the output file before `page_iterator`
      resumes and waits for `>`. */
  method ReceivePage(dev: ExpectSerial, out: BinaryFile, pass: Pass, deadline: nat, offset: nat, ghost st: PageStep)
    returns (result: PageResult)
    requires offset % PAGE_SIZE == 0 && pass.body.Receive?
    requires st == PageSpec(pass, deadline, offset / PAGE_SIZE, dev.incoming)
    modifies dev, out
    ensures result == st.result && dev.incoming == st.rest && dev.log == old(dev.log) + st.events
    ensures out.content == old(out.content) + st.written
  {
    var page := offset / PAGE_SIZE;
    ghost var s := dev.incoming;
    var line := CommandLine(pass.command, page);
    dev.Write(line);
    var ready := dev.Expect([[HASH]], deadline);
    ghost var h := Heard(ready, dev.incoming);
    ghost var waited := [Sent(line), Awaited(ready)];
    assert dev.log == old(dev.log) + waited;
    if ready.TimedOut? {
      ReadyTimedOut(pass, deadline, page, s, h);
      assert out.content == old(out.content) + [];
      return PageTimeout(ready.buf);
    }
    var data := dev.Read(PAGE_SIZE);
    ghost var events := waited + [Got(data)];
    assert dev.log == old(dev.log) + events;
    if |data| < PAGE_SIZE {
      ReceiveShort(pass, deadline, page, s, h, Chunk(data, dev.incoming));
      assert out.content == old(out.content) + [];
      return PageShort(data);
    }
    out.Write(data);
    PageClassified(pass, deadline, page, s, h, events, data, dev.incoming);
    result := AwaitCompletion(dev, pass, deadline, old(dev.log), events, data);
  }

  /** The end of every page: `page_iterator` resumes after the yield, waits
      for `>` and, when the pass verifies, fails the page unless `b'OK'`
      occurs in what arrived before it. */
  method AwaitCompletion(dev: ExpectSerial, pass: Pass, deadline: nat, ghost before: seq<Event>,
                         ghost events: seq<Event>, ghost written: seq<byte>) returns (result: PageResult)
    requires dev.log == before + events
    modifies dev
    ensures var st := Classify(pass, events, written, ExpectSpec(old(dev.incoming), [[PROMPT]], deadline));
      result == st.result && dev.incoming == st.rest && dev.log == before + st.events
  {
    var done := dev.Expect([[PROMPT]], deadline);
    Regroup(before, events, [Awaited(done)]);
    if done.TimedOut? {
      return PageTimeout(done.buf);
    }
    var ok := Contains(done.buf, OK);
    if pass.verify && !ok {
      return PageRejected(done.buf);
    }
    return PageDone;
  }

  /** Past the last page the sweep has nothing left to do. */
  lemma SweepEnds(pass: Pass, deadline: nat, s: seq<Arrival>, done: seq<Event>, output: seq<byte>)
    ensures Resumed(done, output, PagesFrom(pass, deadline, PAGE_COUNT, s)) == Transfer(Completed, done, output, s)
  {
    assert done + [] == done;
    assert output + [] == output;
  }

  lemma PageOffset(k: nat)
    ensures (k * PAGE_SIZE) % PAGE_SIZE == 0 && (k * PAGE_SIZE) / PAGE_SIZE == k
  {
  }

  lemma Regroup<T>(a: seq<T>, b: seq<T>, c: seq<T>)
    ensures (a + b) + c == a + (b + c)
  {
  }
}
