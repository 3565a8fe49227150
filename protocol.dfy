/** The page-transfer protocol shared by both scripts: the command line of a
    page, one page transaction, the sweep over all 512 pages, and what the
    host sends in the course of it. The functions here are the
    specification that the imperative loops of `Gls29ee512` and `Writer`
    are proved against. */
module Protocol {
  import opened Bytes
  import opened Serial

  const PAGE_SIZE: nat := 128
  const ROM_SIZE: nat := 65536
  /** The number of offsets in `range(0, ROM_SIZE, PAGE_SIZE)`. */
  const PAGE_COUNT: nat := ROM_SIZE / PAGE_SIZE

  // ---------------------------------------------------------------------
  // Command lines

  datatype Verb = Read | Write | Verify

  /** The verb as it appears on the wire. */
  function VerbName(v: Verb): seq<byte>
  {
    match v
    case Read => [114, 101, 97, 100]               // "read"
    case Write => [119, 114, 105, 116, 101]        // "write"
    case Verify => [118, 101, 114, 105, 102, 121]  // "verify"
  }

  predicate IsDigit(b: byte)
  {
    DIGIT_ZERO <= b <= DIGIT_ZERO + 9
  }

  /** The number a string of ASCII decimal digits denotes. */
  function DigitsValue(ds: seq<byte>): nat
    decreases |ds|
  {
    if ds == [] then 0
    else
      var d := ds[|ds| - 1];
      DigitsValue(ds[..|ds| - 1]) * 10 + (if IsDigit(d) then d - DIGIT_ZERO else 0)
  }

  /** Python's `str(n)` for a natural number, in ASCII: decimal digits
      without a leading zero that denote `n`. */
  function Decimal(n: nat): (r: seq<byte>)
    ensures 1 <= |r| && forall i :: 0 <= i < |r| ==> IsDigit(r[i])
    ensures |r| > 1 ==> r[0] != DIGIT_ZERO
    ensures DigitsValue(r) == n
    decreases n
  {
    if n < 10 then [DIGIT_ZERO + n]
    else
      var r := Decimal(n / 10) + [DIGIT_ZERO + n % 10];
      assert r[..|r| - 1] == Decimal(n / 10);
      r
  }

  /** `f'{command} {page}\n'.encode('ascii')` */
  function CommandLine(v: Verb, page: nat): seq<byte>
  {
    VerbName(v) + [SPACE] + Decimal(page) + [NEWLINE]
  }

  /** Each command is one ASCII line: it ends with the only newline in it,
      so a page's request is never batched with another. */
  lemma CommandLineIsOneLine(v: Verb, page: nat)
    ensures var line := CommandLine(v, page);
      && |line| >= 4 && line[|line| - 1] == NEWLINE
      && (forall i :: 0 <= i < |line| - 1 ==> line[i] != NEWLINE)
      && (forall i :: 0 <= i < |line| ==> line[i] < 128)
  {
  }

  /** Different pages or verbs never produce the same command line, so the
      device can tell each request apart. */
  lemma CommandLineInjective(v1: Verb, p1: nat, v2: Verb, p2: nat)
    requires CommandLine(v1, p1) == CommandLine(v2, p2)
    ensures v1 == v2 && p1 == p2
  {
    var line := CommandLine(v1, p1);
    var n1, n2 := |VerbName(v1)|, |VerbName(v2)|;
    assert line[n1] == SPACE;
    assert line[n2] == SPACE;
    assert forall i :: 0 <= i < n1 ==> line[i] == VerbName(v1)[i] != SPACE;
    assert forall i :: 0 <= i < n2 ==> line[i] == VerbName(v2)[i] != SPACE;
    assert n1 == n2;
    assert v1 == v2;
    assert Decimal(p1) == line[n1 + 1..|line| - 1] == Decimal(p2);
  }

  // ---------------------------------------------------------------------
  // One page transaction

  /** What the host does once the device has signalled `#`: send its slice
      of the image (write, verify), or read the page (dump). */
  datatype Body = Send(image: seq<byte>) | Receive

  /** One sweep over the pages: the verb sent, the payload step, and whether
      the completion text must contain `b'OK'`. */
  datatype Pass = Pass(command: Verb, body: Body, verify: bool)

  /** Python's `data[lo:hi]`, which clamps both bounds to the data. */
  function Slice(data: seq<byte>, lo: nat, hi: nat): (r: seq<byte>)
    ensures lo <= hi <= |data| ==> r == data[lo..hi]
    ensures |r| <= (if lo <= hi then hi - lo else 0)
  {
    if hi <= lo || |data| <= lo then []
    else data[lo..if hi < |data| then hi else |data|]
  }

  /** `data[offset:offset + PAGE_SIZE]` for the page at `offset`. */
  function PagePayload(image: seq<byte>, page: nat): seq<byte>
  {
    Slice(image, page * PAGE_SIZE, page * PAGE_SIZE + PAGE_SIZE)
  }

  datatype PageResult =
    | PageDone
    | PageTimeout(buf: seq<byte>)
    | PageShort(got: seq<byte>)
    | PageRejected(response: seq<byte>)

  /** A page transaction: its result, the trace it adds, the bytes it
      appends to the dump file, and the arrivals it leaves. */
  datatype PageStep = PageStep(result: PageResult, events: seq<Event>, written: seq<byte>, rest: seq<Arrival>)

  /** The messages the host writes, in order. */
  function SentOf(events: seq<Event>): seq<seq<byte>>
  {
    if events == [] then []
    else (if events[0].Sent? then [events[0].data] else []) + SentOf(events[1..])
  }

  /** The bytes of the host's `read(size)` calls, concatenated. */
  function GotOf(events: seq<Event>): seq<byte>
  {
    if events == [] then []
    else (if events[0].Got? then events[0].data else []) + GotOf(events[1..])
  }

  lemma TraceAppend(a: seq<Event>, b: seq<Event>)
    ensures SentOf(a + b) == SentOf(a) + SentOf(b)
    ensures GotOf(a + b) == GotOf(a) + GotOf(b)
  {
    SentAppend(a, b);
    GotAppend(a, b);
  }

  lemma {:induction false} SentAppend(a: seq<Event>, b: seq<Event>)
    ensures SentOf(a + b) == SentOf(a) + SentOf(b)
  {
    if a == [] {
      assert a + b == b;
    } else {
      assert (a + b)[0] == a[0];
      assert (a + b)[1..] == a[1..] + b;
      SentAppend(a[1..], b);
    }
  }

  lemma {:induction false} GotAppend(a: seq<Event>, b: seq<Event>)
    ensures GotOf(a + b) == GotOf(a) + GotOf(b)
  {
    if a == [] {
      assert a + b == b;
    } else {
      assert (a + b)[0] == a[0];
      assert (a + b)[1..] == a[1..] + b;
      GotAppend(a[1..], b);
    }
  }

  lemma TraceOne(e: Event)
    ensures SentOf([e]) == (if e.Sent? then [e.data] else [])
    ensures GotOf([e]) == (if e.Got? then e.data else [])
  {
    assert [e][1..] == [];
  }

  /** The last thing the host did was an `expect` that timed out with
      `buffer`: the `TimeoutError` ended the exchange and nothing followed. */
  predicate EndsOnTimeout(events: seq<Event>, buffer: seq<byte>)
  {
    |events| > 0 && events[|events| - 1] == Awaited(TimedOut(buffer))
  }

  /** Classifying the result of waiting for `>`: with `verify`, the page
      fails unless `b'OK'` occurs in the completion text. */
  function Classify(pass: Pass, events: seq<Event>, written: seq<byte>, done: Heard): PageStep
  {
    var trace := events + [Awaited(done.prompt)];
    if done.prompt.TimedOut? then PageStep(PageTimeout(done.prompt.buf), trace, written, done.rest)
    else if pass.verify && !Contains(done.prompt.buf, OK) then PageStep(PageRejected(done.prompt.buf), trace, written, done.rest)
    else PageStep(PageDone, trace, written, done.rest)
  }

  /** The rest of a page once the wait for `#` has ended. */
  function AfterReady(pass: Pass, deadline: nat, page: nat, ready: Heard): PageStep
  {
    var waited := [Sent(CommandLine(pass.command, page)), Awaited(ready.prompt)];
    if ready.prompt.TimedOut? then
      PageStep(PageTimeout(ready.prompt.buf), waited, [], ready.rest)
    else
      match pass.body
      case Send(image) =>
        Classify(pass, waited + [Sent(PagePayload(image, page))], [], ExpectSpec(ready.rest, [[PROMPT]], deadline))
      case Receive =>
        var c := Take(ready.rest, PAGE_SIZE);
        if |c.data| < PAGE_SIZE then
          PageStep(PageShort(c.data), waited + [Got(c.data)], [], c.rest)
        else
          Classify(pass, waited + [Got(c.data)], c.data, ExpectSpec(c.rest, [[PROMPT]], deadline))
  }

  /** One iteration of the page loop: send the command line, wait for `#`,
      do the payload step, wait for `>`, classify. */
  function PageSpec(pass: Pass, deadline: nat, page: nat, s: seq<Arrival>): PageStep
  {
    AfterReady(pass, deadline, page, ExpectSpec(s, [[HASH]], deadline))
  }

  /** The trace of a classified page is the trace before it plus the wait
      for `>`; a page that reaches `>` fails exactly when the check is on
      and `b'OK'` does not occur in the completion text. */
  lemma ClassifyFacts(pass: Pass, events: seq<Event>, written: seq<byte>, done: Heard)
    ensures var st := Classify(pass, events, written, done);
      && st.events == events + [Awaited(done.prompt)]
      && SentOf(st.events) == SentOf(events)
      && GotOf(st.events) == GotOf(events)
      && st.written == written
      && !st.result.PageShort?
      && (st.result.PageTimeout? <==> done.prompt.TimedOut?)
      && (st.result.PageRejected? <==> done.prompt.Matched? && pass.verify && !Contains(done.prompt.buf, OK))
      && (st.result.PageRejected? ==> st.result.response == done.prompt.buf)
  {
    TraceOne(Awaited(done.prompt));
    TraceAppend(events, [Awaited(done.prompt)]);
  }

  /** The trace of the opening of a page: the command line, then the wait for `#`. */
  lemma OpeningFacts(line: seq<byte>, p: Prompt, e: Event)
    ensures SentOf([Sent(line), Awaited(p)]) == [line] && GotOf([Sent(line), Awaited(p)]) == []
    ensures SentOf([Sent(line), Awaited(p)] + [e]) == [line] + SentOf([e])
    ensures GotOf([Sent(line), Awaited(p)] + [e]) == GotOf([e])
  {
    TraceOne(Sent(line));
    TraceOne(Awaited(p));
    TraceOne(e);
    TraceAppend([Sent(line)], [Awaited(p)]);
    TraceAppend([Sent(line), Awaited(p)], [e]);
  }

  /** A page once the wait for `#` has ended. The command is the first
      thing sent and `#` is awaited next; the payload goes out only once `#`
      was seen, and nothing else is sent for the page. A dump page is
      written to the file only when all 128 bytes arrived, and then all of
      them. */
  predicate OpensPage(pass: Pass, page: nat, ready: Heard, st: PageStep)
  {
    && |st.events| >= 2 && st.events[0] == Sent(CommandLine(pass.command, page))
    && st.events[1] == Awaited(ready.prompt)
    && (ready.prompt.TimedOut? ==> st.result == PageTimeout(ready.prompt.buf))
    && SentOf(st.events) ==
         (if pass.body.Send? && ready.prompt.Matched?
          then [CommandLine(pass.command, page), PagePayload(pass.body.image, page)]
          else [CommandLine(pass.command, page)])
    && (pass.body.Send? ==> st.written == [] && GotOf(st.events) == [] && !st.result.PageShort?)
    && (pass.body.Receive? ==>
          && GotOf(st.events) == st.written + (if st.result.PageShort? then st.result.got else [])
          && (st.result.PageShort? ==> |st.result.got| < PAGE_SIZE && st.written == [])
          && (st.result.PageDone? ==> |st.written| == PAGE_SIZE)
          && (st.written == [] || |st.written| == PAGE_SIZE))
  }

  lemma SendOpensPage(pass: Pass, deadline: nat, page: nat, ready: Heard)
    requires pass.body.Send?
    ensures OpensPage(pass, page, ready, AfterReady(pass, deadline, page, ready))
  {
    var line := CommandLine(pass.command, page);
    OpeningFacts(line, ready.prompt, Awaited(ready.prompt));
    if ready.prompt.Matched? {
      var e := Sent(PagePayload(pass.body.image, page));
      TraceOne(e);
      OpeningFacts(line, ready.prompt, e);
      ClassifyFacts(pass, [Sent(line), Awaited(ready.prompt)] + [e], [], ExpectSpec(ready.rest, [[PROMPT]], deadline));
    }
  }

  lemma ReceiveOpensPage(pass: Pass, deadline: nat, page: nat, ready: Heard)
    requires pass.body.Receive?
    ensures OpensPage(pass, page, ready, AfterReady(pass, deadline, page, ready))
  {
    var line := CommandLine(pass.command, page);
    OpeningFacts(line, ready.prompt, Awaited(ready.prompt));
    if ready.prompt.Matched? {
      var c := Take(ready.rest, PAGE_SIZE);
      OpeningFacts(line, ready.prompt, Got(c.data));
      if |c.data| >= PAGE_SIZE {
        ClassifyFacts(pass, [Sent(line), Awaited(ready.prompt)] + [Got(c.data)], c.data, ExpectSpec(c.rest, [[PROMPT]], deadline));
      }
    }
  }

  lemma AfterReadyFacts(pass: Pass, deadline: nat, page: nat, ready: Heard)
    ensures OpensPage(pass, page, ready, AfterReady(pass, deadline, page, ready))
  {
    if pass.body.Send? {
      SendOpensPage(pass, deadline, page, ready);
    } else {
      ReceiveOpensPage(pass, deadline, page, ready);
    }
  }

  /** The last event of a page that reaches `>` is the wait for it, which
      ended on `>`; such a page fails exactly when the check is on and
      `b'OK'` does not occur in the completion text. */
  lemma AfterReadyEnding(pass: Pass, deadline: nat, page: nat, ready: Heard)
    ensures var st := AfterReady(pass, deadline, page, ready);
      st.result.PageDone? || st.result.PageRejected? ==>
        var last := st.events[|st.events| - 1];
        && last.Awaited? && last.prompt.Matched? && EndsWith(last.prompt.buf, [PROMPT])
        && (st.result.PageRejected? <==> pass.verify && !Contains(last.prompt.buf, OK))
        && (st.result.PageRejected? ==> st.result.response == last.prompt.buf)
  {
    if ready.prompt.Matched? {
      var line := CommandLine(pass.command, page);
      var rest := if pass.body.Send? then ready.rest else Take(ready.rest, PAGE_SIZE).rest;
      var done := ExpectSpec(rest, [[PROMPT]], deadline);
      if done.prompt.Matched? {
        assert [PROMPT] in [[PROMPT]];
        EndsWithOne(done.prompt.buf, [PROMPT]);
      }
    }
  }

  /** A page that times out ends on the wait that timed out, for `#` or
      for `>`, and reports that wait's buffer. */
  lemma AfterReadyTimeout(pass: Pass, deadline: nat, page: nat, ready: Heard)
    ensures var st := AfterReady(pass, deadline, page, ready);
      st.result.PageTimeout? ==> EndsOnTimeout(st.events, st.result.buf)
  {
    var waited := [Sent(CommandLine(pass.command, page)), Awaited(ready.prompt)];
    if ready.prompt.TimedOut? {
      assert waited[|waited| - 1] == Awaited(ready.prompt);
    } else if pass.body.Send? {
      ClassifyTimeout(pass, waited + [Sent(PagePayload(pass.body.image, page))], [], ExpectSpec(ready.rest, [[PROMPT]], deadline));
    } else {
      var c := Take(ready.rest, PAGE_SIZE);
      if |c.data| >= PAGE_SIZE {
        ClassifyTimeout(pass, waited + [Got(c.data)], c.data, ExpectSpec(c.rest, [[PROMPT]], deadline));
      }
    }
  }

  lemma ClassifyTimeout(pass: Pass, events: seq<Event>, written: seq<byte>, done: Heard)
    ensures var st := Classify(pass, events, written, done);
      st.result.PageTimeout? ==> EndsOnTimeout(st.events, st.result.buf)
  {
  }

  /** The page transaction once the payload step is over and `>` is awaited. */
  lemma PageClassified(pass: Pass, deadline: nat, page: nat, s: seq<Arrival>, ready: Heard,
                       events: seq<Event>, written: seq<byte>, rest: seq<Arrival>)
    requires ExpectSpec(s, [[HASH]], deadline) == ready && ready.prompt.Matched?
    requires pass.body.Send? ==>
      events == [Sent(CommandLine(pass.command, page)), Awaited(ready.prompt)] + [Sent(PagePayload(pass.body.image, page))]
      && written == [] && rest == ready.rest
    requires pass.body.Receive? ==>
      var c := Take(ready.rest, PAGE_SIZE);
      && |c.data| == PAGE_SIZE
      && events == [Sent(CommandLine(pass.command, page)), Awaited(ready.prompt)] + [Got(c.data)]
      && written == c.data && rest == c.rest
    ensures PageSpec(pass, deadline, page, s) == Classify(pass, events, written, ExpectSpec(rest, [[PROMPT]], deadline))
  {
  }

  /** The page transaction when the wait for `#` timed out. */
  lemma ReadyTimedOut(pass: Pass, deadline: nat, page: nat, s: seq<Arrival>, ready: Heard)
    requires ExpectSpec(s, [[HASH]], deadline) == ready && ready.prompt.TimedOut?
    ensures PageSpec(pass, deadline, page, s)
         == PageStep(PageTimeout(ready.prompt.buf), [Sent(CommandLine(pass.command, page)), Awaited(ready.prompt)], [], ready.rest)
  {
  }

  /** The page transaction when the dump's `read(128)` came back short. */
  lemma ReceiveShort(pass: Pass, deadline: nat, page: nat, s: seq<Arrival>, ready: Heard, c: Chunk)
    requires pass.body.Receive?
    requires ExpectSpec(s, [[HASH]], deadline) == ready && ready.prompt.Matched?
    requires Take(ready.rest, PAGE_SIZE) == c && |c.data| < PAGE_SIZE
    ensures PageSpec(pass, deadline, page, s)
         == PageStep(PageShort(c.data), [Sent(CommandLine(pass.command, page)), Awaited(ready.prompt)] + [Got(c.data)], [], c.rest)
  {
  }

  /** The shape of one page transaction, from the arrivals it starts on. */
  lemma PageFacts(pass: Pass, deadline: nat, page: nat, s: seq<Arrival>)
    ensures var st := PageSpec(pass, deadline, page, s);
      var ready := ExpectSpec(s, [[HASH]], deadline).prompt;
      && |st.events| >= 2 && st.events[0] == Sent(CommandLine(pass.command, page))
      && st.events[1] == Awaited(ready)
      && (ready.Matched? ==> EndsWith(ready.buf, [HASH]))
      && (ready.TimedOut? ==> st.result == PageTimeout(ready.buf))
      && SentOf(st.events) == (if pass.body.Send? && ready.Matched? then PageScript(pass, page) else [CommandLine(pass.command, page)])
      && (pass.body.Send? ==> st.written == [] && GotOf(st.events) == [] && !st.result.PageShort?)
      && (pass.body.Receive? ==>
            && GotOf(st.events) == st.written + (if st.result.PageShort? then st.result.got else [])
            && (st.result.PageShort? ==> |st.result.got| < PAGE_SIZE && st.written == [])
            && (st.result.PageDone? ==> |st.written| == PAGE_SIZE)
            && (st.written == [] || |st.written| == PAGE_SIZE))
      && (st.result.PageDone? || st.result.PageRejected? ==>
            var last := st.events[|st.events| - 1];
            && last.Awaited? && last.prompt.Matched? && EndsWith(last.prompt.buf, [PROMPT])
            && (st.result.PageRejected? <==> pass.verify && !Contains(last.prompt.buf, OK))
            && (st.result.PageRejected? ==> st.result.response == last.prompt.buf))
      && (st.result.PageTimeout? ==> EndsOnTimeout(st.events, st.result.buf))
  {
    var ready := ExpectSpec(s, [[HASH]], deadline);
    assert PageSpec(pass, deadline, page, s) == AfterReady(pass, deadline, page, ready);
    AfterReadyFacts(pass, deadline, page, ready);
    AfterReadyEnding(pass, deadline, page, ready);
    AfterReadyTimeout(pass, deadline, page, ready);
    if ready.prompt.Matched? {
      EndsWithOne(ready.prompt.buf, [HASH]);
    }
  }

  /** What the sweep relies on about a page transaction: it sends a prefix
      of the page's script, all of it unless it timed out; a page that
      reaches `>` ends with that wait and fails exactly when the check is
      on and `b'OK'` is missing; and only a full dump page reaches the file. */
  predicate PageContract(pass: Pass, page: nat, st: PageStep)
  {
    && SentOf(st.events) <= PageScript(pass, page)
    && (!st.result.PageTimeout? ==> SentOf(st.events) == PageScript(pass, page))
    && (st.result.PageDone? || st.result.PageRejected? ==>
          && |st.events| > 0
          && var last := st.events[|st.events| - 1];
          && last.Awaited? && last.prompt.Matched? && EndsWith(last.prompt.buf, [PROMPT])
          && (st.result.PageRejected? <==> pass.verify && !Contains(last.prompt.buf, OK))
          && (st.result.PageRejected? ==> st.result.response == last.prompt.buf))
    && (st.result.PageTimeout? ==> EndsOnTimeout(st.events, st.result.buf))
    && (pass.body.Send? ==> st.written == [] && GotOf(st.events) == [] && !st.result.PageShort?)
    && (pass.body.Receive? ==>
          && GotOf(st.events) == st.written + (if st.result.PageShort? then st.result.got else [])
          && (st.result.PageShort? ==> |st.result.got| < PAGE_SIZE && st.written == [])
          && (st.result.PageDone? ==> |st.written| == PAGE_SIZE)
          && (st.written == [] || |st.written| == PAGE_SIZE))
  }

  lemma PageKeepsContract(pass: Pass, deadline: nat, page: nat, s: seq<Arrival>)
    ensures PageContract(pass, page, PageSpec(pass, deadline, page, s))
  {
    PageFacts(pass, deadline, page, s);
  }

  // ---------------------------------------------------------------------
  // The page loop

  /** How a sweep over the pages ends. `Timeout` carries only the buffer,
      as `TimeoutError` does. */
  datatype Outcome =
    | Completed
    | Failed(page: nat, diagnostic: seq<byte>)
    | ShortRead(page: nat, got: seq<byte>)
    | Timeout(buffer: seq<byte>)

  datatype Transfer = Transfer(outcome: Outcome, events: seq<Event>, output: seq<byte>, rest: seq<Arrival>)

  /** The sweep from a page on, given how that page went and the sweep of
      the pages after it (which only matters when the page completed). A
      rejected page is reported with its completion text minus the echoes
      of the idle prompt. */
  function Join(page: nat, st: PageStep, later: Transfer): Transfer
  {
    if st.result.PageDone? then Transfer(later.outcome, st.events + later.events, st.written + later.output, later.rest)
    else Transfer(Stop(page, st.result), st.events, st.written, st.rest)
  }

  /** How a page that did not complete ends the sweep: a timeout carries
      the buffer, a short read the bytes received, and a rejected page its
      completion text minus the echoes of the idle prompt. */
  function Stop(page: nat, r: PageResult): (o: Outcome)
    requires !r.PageDone?
    ensures o != Completed
    ensures o.Failed? || o.ShortRead? ==> o.page == page
  {
    match r
    case PageTimeout(b) => Timeout(b)
    case PageShort(g) => ShortRead(page, g)
    case PageRejected(resp) => Failed(page, StripReady(resp))
  }

  /** The sweep over nothing: no page left. */
  function Idle(s: seq<Arrival>): Transfer
  {
    Transfer(Completed, [], [], s)
  }

  /** The pages `page`, `page + 1`, ..., 511 in ascending order, stopping at
      the first page that does not complete. */
  function PagesFrom(pass: Pass, deadline: nat, page: nat, s: seq<Arrival>): Transfer
    decreases PAGE_COUNT - page
  {
    if page >= PAGE_COUNT then Idle(s)
    else
      var st := PageSpec(pass, deadline, page, s);
      Join(page, st, if st.result.PageDone? then PagesFrom(pass, deadline, page + 1, st.rest) else Idle(st.rest))
  }

  /** A sweep `x` that starts after earlier pages already produced `events`
      and `output`. */
  function Resumed(events: seq<Event>, output: seq<byte>, x: Transfer): Transfer
  {
    Transfer(x.outcome, events + x.events, output + x.output, x.rest)
  }

  /** One step of a loop over the pages: a completed page moves its events
      and output into the part already done, and any other page ends the
      sweep with its own outcome. */
  lemma ResumeStep(pass: Pass, deadline: nat, page: nat, s: seq<Arrival>, st: PageStep, events: seq<Event>, output: seq<byte>)
    requires page < PAGE_COUNT && st == PageSpec(pass, deadline, page, s)
    ensures var x := Resumed(events, output, PagesFrom(pass, deadline, page, s));
      && (st.result.PageDone? ==>
            x == Resumed(events + st.events, output + st.written, PagesFrom(pass, deadline, page + 1, st.rest)))
      && (!st.result.PageDone? ==>
            x == Transfer(Stop(page, st.result), events + st.events, output + st.written, st.rest))
  {
    UnfoldPages(pass, deadline, page, s, st);
    if st.result.PageDone? {
      var later := PagesFrom(pass, deadline, page + 1, st.rest);
      assert events + (st.events + later.events) == (events + st.events) + later.events;
      assert output + (st.written + later.output) == (output + st.written) + later.output;
    }
  }

  lemma UnfoldPages(pass: Pass, deadline: nat, page: nat, s: seq<Arrival>, st: PageStep)
    requires page < PAGE_COUNT && st == PageSpec(pass, deadline, page, s)
    ensures PagesFrom(pass, deadline, page, s)
         == Join(page, st, if st.result.PageDone? then PagesFrom(pass, deadline, page + 1, st.rest) else Idle(st.rest))
  {
  }

  /** What the host sends for one page when nothing goes wrong. */
  function PageScript(pass: Pass, page: nat): seq<seq<byte>>
  {
    match pass.body
    case Send(image) => [CommandLine(pass.command, page), PagePayload(image, page)]
    case Receive => [CommandLine(pass.command, page)]
  }

  /** What the host sends for pages `first` .. `limit - 1`, in ascending order. */
  function Script(pass: Pass, first: nat, limit: nat): seq<seq<byte>>
    decreases limit - first
  {
    if limit <= first then [] else PageScript(pass, first) + Script(pass, first + 1, limit)
  }

  lemma PrefixJoin<T>(p: seq<T>, a: seq<T>, b: seq<T>)
    requires a <= b
    ensures p + a <= p + b
  {
    assert (p + b)[..|p + a|] == p + b[..|a|];
  }

  lemma PrefixGrow<T>(a: seq<T>, b: seq<T>, c: seq<T>)
    requires a <= b
    ensures a <= b + c
  {
    assert (b + c)[..|a|] == b[..|a|];
  }

  /** The host's messages in a sweep from `page`: a prefix of the script,
      all of it when the sweep completes, and exactly the script through
      the page it stops on after a failed page or a short read. A sweep
      that times out ends on the `expect` that timed out, with the buffer
      it carried. */
  predicate FollowsScript(pass: Pass, page: nat, x: Transfer)
  {
    && SentOf(x.events) <= Script(pass, page, PAGE_COUNT)
    && (x.outcome == Completed ==> SentOf(x.events) == Script(pass, page, PAGE_COUNT))
    && (x.outcome.Failed? || x.outcome.ShortRead? ==>
          && page <= x.outcome.page < PAGE_COUNT
          && SentOf(x.events) == Script(pass, page, x.outcome.page + 1))
    && (x.outcome.Timeout? ==> EndsOnTimeout(x.events, x.outcome.buffer))
  }

  lemma JoinFollowsScript(pass: Pass, page: nat, st: PageStep, later: Transfer)
    requires page < PAGE_COUNT
    requires PageContract(pass, page, st)
    requires st.result.PageDone? ==> FollowsScript(pass, page + 1, later)
    ensures FollowsScript(pass, page, Join(page, st, later))
  {
    var x := Join(page, st, later);
    var ps := PageScript(pass, page);
    var tail := Script(pass, page + 1, PAGE_COUNT);
    assert Script(pass, page, PAGE_COUNT) == ps + tail;
    if st.result.PageDone? {
      TraceAppend(st.events, later.events);
      PrefixJoin(ps, SentOf(later.events), tail);
      if later.outcome.Failed? || later.outcome.ShortRead? {
        var k := later.outcome.page;
        assert Script(pass, page, k + 1) == ps + Script(pass, page + 1, k + 1);
      }
      if later.outcome.Timeout? {
        var all := st.events + later.events;
        assert all[|all| - 1] == later.events[|later.events| - 1];
      }
    } else {
      PrefixGrow(SentOf(st.events), ps, tail);
      assert Script(pass, page, page + 1) == ps + Script(pass, page + 1, page + 1);
    }
  }

  /** Whatever the device does, the host only ever sends a prefix of the
      script: ascending pages, each command before its payload, nothing
      skipped. A completed sweep sends all of it. A sweep that stops on a
      failed page or a short read names a page in [page, 511] and sends the
      script up to and including that page and nothing after it. */
  lemma {:induction false} PagesFollowScript(pass: Pass, deadline: nat, page: nat, s: seq<Arrival>)
    requires page <= PAGE_COUNT
    ensures FollowsScript(pass, page, PagesFrom(pass, deadline, page, s))
    decreases PAGE_COUNT - page
  {
    if page < PAGE_COUNT {
      var st := PageSpec(pass, deadline, page, s);
      PageKeepsContract(pass, deadline, page, s);
      var later := if st.result.PageDone? then PagesFrom(pass, deadline, page + 1, st.rest) else Idle(st.rest);
      if st.result.PageDone? {
        PagesFollowScript(pass, deadline, page + 1, st.rest);
      }
      JoinFollowsScript(pass, page, st, later);
    }
  }

  /** A failed sweep is a pass with the check on whose last event, the wait
      for the completion text, ended on `>` without `b'OK'` in it; the
      diagnostic is that text with the prompt echoes removed. */
  predicate FailsOnMissingOk(pass: Pass, x: Transfer)
  {
    x.outcome.Failed? ==>
      && pass.verify
      && |x.events| > 0
      && var last := x.events[|x.events| - 1];
      && last.Awaited? && last.prompt.Matched? && EndsWith(last.prompt.buf, [PROMPT])
      && !Contains(last.prompt.buf, OK)
      && x.outcome.diagnostic == StripReady(last.prompt.buf)
  }

  lemma JoinFailsOnMissingOk(pass: Pass, page: nat, st: PageStep, later: Transfer)
    requires PageContract(pass, page, st)
    requires st.result.PageDone? ==> FailsOnMissingOk(pass, later)
    ensures FailsOnMissingOk(pass, Join(page, st, later))
  {
    if st.result.PageDone? && later.outcome.Failed? {
      var all := st.events + later.events;
      assert all[|all| - 1] == later.events[|later.events| - 1];
    }
  }

  /** A failed page is a write or verify pass whose completion text, the
      last thing the host saw, lacks `b'OK'`. A pass without the check
      never fails this way. */
  lemma {:induction false} FailureIsMissingOk(pass: Pass, deadline: nat, page: nat, s: seq<Arrival>)
    ensures FailsOnMissingOk(pass, PagesFrom(pass, deadline, page, s))
    decreases PAGE_COUNT - page
  {
    if page < PAGE_COUNT {
      var st := PageSpec(pass, deadline, page, s);
      PageKeepsContract(pass, deadline, page, s);
      var later := if st.result.PageDone? then PagesFrom(pass, deadline, page + 1, st.rest) else Idle(st.rest);
      if st.result.PageDone? {
        FailureIsMissingOk(pass, deadline, page + 1, st.rest);
      }
      JoinFailsOnMissingOk(pass, page, st, later);
    }
  }

  /** What a sweep from `page` writes to the dump file: every completed
      `read(128)` in order, 128 bytes for each page that completed, and
      nothing for a write or verify pass. */
  predicate WritesPagesRead(pass: Pass, page: nat, x: Transfer)
  {
    && (pass.body.Send? ==> x.output == [] && GotOf(x.events) == [] && !x.outcome.ShortRead?)
    && (pass.body.Receive? ==>
          && GotOf(x.events) == x.output + (if x.outcome.ShortRead? then x.outcome.got else [])
          && |x.output| % PAGE_SIZE == 0
          && (x.outcome == Completed ==> |x.output| == PAGE_SIZE * (PAGE_COUNT - page))
          && (x.outcome.ShortRead? ==>
                && |x.outcome.got| < PAGE_SIZE
                && |x.output| == PAGE_SIZE * (x.outcome.page - page)))
  }

  lemma JoinReadsNothing(pass: Pass, page: nat, st: PageStep, later: Transfer)
    requires pass.body.Send?
    requires PageContract(pass, page, st)
    requires st.result.PageDone? ==> WritesPagesRead(pass, page + 1, later)
    ensures WritesPagesRead(pass, page, Join(page, st, later))
  {
    if st.result.PageDone? {
      TraceAppend(st.events, later.events);
    }
  }

  lemma JoinWritesPagesRead(pass: Pass, page: nat, st: PageStep, later: Transfer)
    requires pass.body.Receive? && page < PAGE_COUNT
    requires PageContract(pass, page, st)
    requires st.result.PageDone? ==> WritesPagesRead(pass, page + 1, later)
    requires later.outcome.ShortRead? ==> page < later.outcome.page
    ensures WritesPagesRead(pass, page, Join(page, st, later))
  {
    if st.result.PageDone? {
      TraceAppend(st.events, later.events);
      var m := |later.output|;
      assert |st.written + later.output| == PAGE_SIZE + m;
      assert (PAGE_SIZE + m) % PAGE_SIZE == m % PAGE_SIZE;
    }
  }

  /** The dump file receives the pages read, in the order they were read:
      it is the bytes of every completed `read(128)` of the sweep, 128 per
      page, with only a short final read left out. A completed dump holds
      128 bytes for each page swept. Write and verify passes read nothing
      and write no file. */
  lemma {:induction false} PagesOutput(pass: Pass, deadline: nat, page: nat, s: seq<Arrival>)
    requires page <= PAGE_COUNT
    ensures WritesPagesRead(pass, page, PagesFrom(pass, deadline, page, s))
    decreases PAGE_COUNT - page
  {
    if page < PAGE_COUNT {
      var st := PageSpec(pass, deadline, page, s);
      PageKeepsContract(pass, deadline, page, s);
      var later := if st.result.PageDone? then PagesFrom(pass, deadline, page + 1, st.rest) else Idle(st.rest);
      if st.result.PageDone? {
        PagesOutput(pass, deadline, page + 1, st.rest);
        PagesFollowScript(pass, deadline, page + 1, st.rest);
      }
      if pass.body.Send? {
        JoinReadsNothing(pass, page, st, later);
      } else {
        JoinWritesPagesRead(pass, page, st, later);
      }
    }
  }

  /** The number of messages a page's script holds: two with a payload,
      one without. */
  function Width(pass: Pass): nat
  {
    if pass.body.Send? then 2 else 1
  }

  lemma {:induction false} ScriptLength(pass: Pass, first: nat, limit: nat)
    requires first <= limit
    ensures |Script(pass, first, limit)| == Width(pass) * (limit - first)
    decreases limit - first
  {
    if first < limit {
      ScriptLength(pass, first + 1, limit);
      assert Width(pass) * (limit - first) == Width(pass) + Width(pass) * (limit - (first + 1));
    }
  }

  /** The script's layout: one entry per page (two with a payload), the
      command of page p at the start of p's entries, naming page p, and
      p's payload right after it. */
  lemma {:induction false} ScriptLayout(pass: Pass, first: nat, limit: nat, p: nat)
    requires first <= p < limit
    ensures |Script(pass, first, limit)| == Width(pass) * (limit - first)
    ensures Script(pass, first, limit)[Width(pass) * (p - first)] == CommandLine(pass.command, p)
    ensures pass.body.Send? ==> Script(pass, first, limit)[2 * (p - first) + 1] == PagePayload(pass.body.image, p)
    decreases limit - first
  {
    ScriptLength(pass, first, limit);
    var w := Width(pass);
    var head := PageScript(pass, first);
    var rest := Script(pass, first + 1, limit);
    assert Script(pass, first, limit) == head + rest;
    assert |head| == w;
    if p > first {
      ScriptLayout(pass, first + 1, limit, p);
      var j := w * (p - (first + 1));
      assert w * (p - first) == w + j;
      assert (head + rest)[w + j] == rest[j];
      if pass.body.Send? {
        assert (head + rest)[2 + (2 * (p - (first + 1)) + 1)] == rest[2 * (p - (first + 1)) + 1];
      }
    }
  }

  /** The payloads, every second message of a write or verify script,
      concatenated. */
  function Payloads(script: seq<seq<byte>>): seq<byte>
  {
    if |script| < 2 then [] else script[1] + Payloads(script[2..])
  }

  /** For an image of exactly `ROM_SIZE` bytes, the payload slices sent for
      pages `first` .. `limit - 1` concatenate to the image bytes they cover;
      over the whole sweep they reproduce the image. */
  lemma {:induction false} PayloadsReassemble(pass: Pass, first: nat, limit: nat)
    requires pass.body.Send? && |pass.body.image| == ROM_SIZE
    requires first <= limit <= PAGE_COUNT
    ensures Payloads(Script(pass, first, limit)) == pass.body.image[first * PAGE_SIZE..limit * PAGE_SIZE]
    decreases limit - first
  {
    var image := pass.body.image;
    if first < limit {
      PayloadsReassemble(pass, first + 1, limit);
      var script := Script(pass, first, limit);
      assert script == [CommandLine(pass.command, first), PagePayload(image, first)] + Script(pass, first + 1, limit);
      assert script[2..] == Script(pass, first + 1, limit);
      assert PagePayload(image, first) == image[first * PAGE_SIZE..first * PAGE_SIZE + PAGE_SIZE];
      assert image[first * PAGE_SIZE..limit * PAGE_SIZE]
          == image[first * PAGE_SIZE..(first + 1) * PAGE_SIZE] + image[(first + 1) * PAGE_SIZE..limit * PAGE_SIZE];
    }
  }

  // ---------------------------------------------------------------------
  // A device that answers as the protocol expects

  /** What a device sends for a write or verify page: `#` once the command
      line is in, then the completion text `reply` once the payload is in. */
  function Answer(reply: seq<byte>): seq<Arrival>
  {
    Arrivals([HASH]) + Arrivals(reply)
  }

  /** The same answer for each of the pages `first` .. `limit - 1`. */
  function Answers(reply: seq<byte>, first: nat, limit: nat): seq<Arrival>
    decreases limit - first
  {
    if limit <= first then [] else Answer(reply) + Answers(reply, first + 1, limit)
  }

  /** A write or verify page answered with `#` and then a completion text
      whose only `>` is its last byte is heard to the end of that text and
      no further. It completes unless the check is on and `OK` is missing;
      then it is rejected with that text. */
  lemma AnsweredPage(pass: Pass, deadline: nat, page: nat, reply: seq<byte>, rest: seq<Arrival>)
    requires pass.body.Send? && EndsOnlyWith(reply, PROMPT) && 1 <= deadline && |reply| <= deadline
    ensures var st := PageSpec(pass, deadline, page, Answer(reply) + rest);
      && st.rest == rest
      && st.result == (if pass.verify && !Contains(reply, OK) then PageRejected(reply) else PageDone)
      && SentOf(st.events) == PageScript(pass, page)
  {
    var ready := Matched([HASH]);
    var events := [Sent(CommandLine(pass.command, page)), Awaited(ready)] + [Sent(PagePayload(pass.body.image, page))];
    var done := Heard(Matched(reply), rest);
    AnswerHeard(pass, deadline, page, reply, rest);
    ClassifyFacts(pass, events, [], done);
    SendsPageScript(pass, page, ready);
  }

  /** The answer is heard as `#` and then the whole completion text. */
  lemma AnswerHeard(pass: Pass, deadline: nat, page: nat, reply: seq<byte>, rest: seq<Arrival>)
    requires pass.body.Send? && EndsOnlyWith(reply, PROMPT) && 1 <= deadline && |reply| <= deadline
    ensures PageSpec(pass, deadline, page, Answer(reply) + rest)
         == Classify(pass, [Sent(CommandLine(pass.command, page)), Awaited(Matched([HASH]))]
                           + [Sent(PagePayload(pass.body.image, page))], [], Heard(Matched(reply), rest))
  {
    var after := Arrivals(reply) + rest;
    AnswerSplits(reply, rest);
    ExpectHearsReply([HASH], HASH, after, deadline);
    var ready := Heard(Matched([HASH]), after);
    var events := [Sent(CommandLine(pass.command, page)), Awaited(ready.prompt)] + [Sent(PagePayload(pass.body.image, page))];
    PageClassified(pass, deadline, page, Arrivals([HASH]) + after, ready, events, [], after);
    ExpectHearsReply(reply, PROMPT, rest, deadline);
  }

  lemma AnswerSplits(reply: seq<byte>, rest: seq<Arrival>)
    ensures Answer(reply) + rest == Arrivals([HASH]) + (Arrivals(reply) + rest)
  {
  }

  lemma SendsPageScript(pass: Pass, page: nat, p: Prompt)
    requires pass.body.Send?
    ensures SentOf([Sent(CommandLine(pass.command, page)), Awaited(p)] + [Sent(PagePayload(pass.body.image, page))])
         == PageScript(pass, page)
  {
    var payload := Sent(PagePayload(pass.body.image, page));
    OpeningFacts(CommandLine(pass.command, page), p, payload);
    TraceOne(payload);
  }

  /** Pages `page` .. `limit - 1` answered that way with a text the check
      accepts all complete: the sweep reaches page `limit` on the arrivals
      that follow the answers. */
  lemma {:induction false} AnsweredPages(pass: Pass, deadline: nat, reply: seq<byte>, page: nat, limit: nat, tail: seq<Arrival>)
    requires pass.body.Send? && EndsOnlyWith(reply, PROMPT) && 1 <= deadline && |reply| <= deadline
    requires pass.verify ==> Contains(reply, OK)
    requires page <= limit <= PAGE_COUNT
    ensures var x := PagesFrom(pass, deadline, page, Answers(reply, page, limit) + tail);
      var y := PagesFrom(pass, deadline, limit, tail);
      x.outcome == y.outcome && x.rest == y.rest
    decreases limit - page
  {
    if page < limit {
      var more := Answers(reply, page + 1, limit) + tail;
      assert Answers(reply, page, limit) + tail == Answer(reply) + more;
      AnsweredPage(pass, deadline, page, reply, more);
      var st := PageSpec(pass, deadline, page, Answer(reply) + more);
      UnfoldPages(pass, deadline, page, Answer(reply) + more, st);
      AnsweredPages(pass, deadline, reply, page + 1, limit, tail);
    } else {
      assert Answers(reply, page, limit) + tail == tail;
    }
  }

  /** A device that answers every page with `#` and a completion text
      holding `OK` sees the sweep complete: all 512 pages of the script are
      sent, and the sweep stops reading right after the last answer. */
  lemma AnsweredSweep(pass: Pass, deadline: nat, reply: seq<byte>, tail: seq<Arrival>)
    requires pass.body.Send? && EndsOnlyWith(reply, PROMPT) && Contains(reply, OK)
    requires 1 <= deadline && |reply| <= deadline
    ensures var x := PagesFrom(pass, deadline, 0, Answers(reply, 0, PAGE_COUNT) + tail);
      && x.outcome == Completed && x.rest == tail
      && SentOf(x.events) == Script(pass, 0, PAGE_COUNT)
  {
    AnsweredPages(pass, deadline, reply, 0, PAGE_COUNT, tail);
    PagesFollowScript(pass, deadline, 0, Answers(reply, 0, PAGE_COUNT) + tail);
  }

  /** A checked sweep whose device accepts pages 0 .. k-1 and answers page
      k with a completion text lacking `OK` fails at page k, reporting that
      text minus `ready>`, and sends nothing for any page after k. */
  lemma RejectedAt(pass: Pass, deadline: nat, reply: seq<byte>, refusal: seq<byte>, k: nat, tail: seq<Arrival>)
    requires pass.body.Send? && pass.verify
    requires EndsOnlyWith(reply, PROMPT) && Contains(reply, OK)
    requires EndsOnlyWith(refusal, PROMPT) && !Contains(refusal, OK)
    requires 1 <= deadline && |reply| <= deadline && |refusal| <= deadline && k < PAGE_COUNT
    ensures var x := PagesFrom(pass, deadline, 0, Answers(reply, 0, k) + (Answer(refusal) + tail));
      && x.outcome == Failed(k, StripReady(refusal))
      && SentOf(x.events) == Script(pass, 0, k + 1)
  {
    var s := Answers(reply, 0, k) + (Answer(refusal) + tail);
    AnsweredPages(pass, deadline, reply, 0, k, Answer(refusal) + tail);
    AnsweredPage(pass, deadline, k, refusal, tail);
    var st := PageSpec(pass, deadline, k, Answer(refusal) + tail);
    UnfoldPages(pass, deadline, k, Answer(refusal) + tail, st);
    PagesFollowScript(pass, deadline, 0, s);
  }
}
