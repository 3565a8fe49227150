/** What both scripts' `main` do around the page loop: check the file named
    on the command line, open the link, probe for the idle prompt, and run
    the passes in order, stopping at the first that does not complete. */
module Session {
  import opened Bytes
  import opened Serial
  import opened Protocol

  datatype Option<T> = None | Some(value: T)

  /** The file named on the command line. */
  datatype File = Absent | Present(content: seq<byte>)

  /** How a run ends; every value but `Success` exits with status 1. */
  datatype Exit =
    | Success
    | NoSuchFile        // open(..., 'rb') raises
    | WrongSize         // "Expected 65536 bytes in ..."
    | RefusedOverwrite  // "Cowardly refusing to overwrite ..."
    | Aborted(command: Verb, outcome: Outcome)
    | Undecodable(buffer: seq<byte>)  // the probe's `TimeoutError` text raises `UnicodeDecodeError`

  /** A binary file opened for writing: `open(path, 'wb')` creates it
      empty, and each `write(data)` appends to it. */
  class BinaryFile {
    var content: seq<byte>

    constructor ()
      ensures content == []
    {
      content := [];
    }

    method Write(data: seq<byte>)
      modifies this
      ensures content == old(content) + data
    {
      content := content + data;
    }
  }

  /** `f.read(n)` on a file positioned at `pos`. */
  function ReadAt(content: seq<byte>, pos: nat, n: nat): (r: seq<byte>)
    ensures |r| <= n
    ensures pos + n <= |content| ==> r == content[pos..pos + n]
    ensures pos >= |content| ==> r == []
  {
    if pos >= |content| then [] else content[pos..if pos + n < |content| then pos + n else |content|]
  }

  /** `data = f.read(ROM_SIZE)`, `more = f.read(1)` and the length test:
      the image is accepted exactly when the file holds `ROM_SIZE` bytes,
      and then it is the whole file. */
  function CheckedImage(content: seq<byte>): (r: Option<seq<byte>>)
    ensures r.Some? <==> |content| == ROM_SIZE
    ensures r.Some? ==> r.value == content
  {
    var data := ReadAt(content, 0, ROM_SIZE);
    var more := ReadAt(content, |data|, 1);
    if |data| != ROM_SIZE || |more| != 0 then None else Some(data)
  }

  function WritePass(image: seq<byte>): Pass { Pass(Write, Send(image), true) }
  function VerifyPass(image: seq<byte>): Pass { Pass(Verify, Send(image), true) }
  function DumpPass(): Pass { Pass(Read, Receive, false) }

  /** What the host sends over a run of passes when every page completes. */
  function Plan(passes: seq<Pass>): seq<seq<byte>>
  {
    if passes == [] then [] else Script(passes[0], 0, PAGE_COUNT) + Plan(passes[1..])
  }

  lemma PlanOfTwo(first: Pass, second: Pass)
    ensures Plan([first, second]) == Script(first, 0, PAGE_COUNT) + Script(second, 0, PAGE_COUNT)
  {
    assert [first, second][1..] == [second];
    assert [second][1..] == [];
    assert Plan([second]) == Script(second, 0, PAGE_COUNT) + [];
  }

  /** A run once the link is open: how it ended, its trace, and the bytes
      written to the dump file. */
  datatype LinkRun = LinkRun(exit: Exit, events: seq<Event>, output: seq<byte>)

  /** A pass followed by the passes after it, which only run when it
      completed. */
  function Then(pass: Pass, x: Transfer, later: LinkRun): LinkRun
  {
    if x.outcome == Completed then LinkRun(later.exit, x.events + later.events, x.output + later.output)
    else LinkRun(Aborted(pass.command, x.outcome), x.events, x.output)
  }

  /** The passes in order, each over all pages, stopping at the first that
      does not complete. */
  function Passes(passes: seq<Pass>, deadline: nat, s: seq<Arrival>): LinkRun
    decreases |passes|
  {
    if passes == [] then LinkRun(Success, [], [])
    else
      var x := PagesFrom(passes[0], deadline, 0, s);
      Then(passes[0], x, if x.outcome == Completed then Passes(passes[1..], deadline, x.rest) else LinkRun(Success, [], []))
  }

  /** The outcome of a single pass as the exit of a run. */
  function ExitOf(pass: Pass, outcome: Outcome): Exit
  {
    if outcome == Completed then Success else Aborted(pass.command, outcome)
  }

  lemma PassesOfOne(pass: Pass, deadline: nat, s: seq<Arrival>)
    ensures var x := PagesFrom(pass, deadline, 0, s);
      Passes([pass], deadline, s) == LinkRun(ExitOf(pass, x.outcome), x.events, x.output)
  {
    var x := PagesFrom(pass, deadline, 0, s);
    assert [pass][1..] == [];
    assert x.events + [] == x.events && x.output + [] == x.output;
  }

  /** A run of two passes whose first does not complete is that pass alone. */
  lemma PassesStopEarly(first: Pass, second: Pass, deadline: nat, s: seq<Arrival>)
    requires PagesFrom(first, deadline, 0, s).outcome != Completed
    ensures var x := PagesFrom(first, deadline, 0, s);
      Passes([first, second], deadline, s) == LinkRun(Aborted(first.command, x.outcome), x.events, x.output)
  {
  }

  /** A run of two passes whose first completes is the first pass followed
      by the second, which starts where the first left the link. */
  lemma PassesOfTwo(first: Pass, second: Pass, deadline: nat, s: seq<Arrival>)
    requires PagesFrom(first, deadline, 0, s).outcome == Completed
    ensures var x := PagesFrom(first, deadline, 0, s);
      var y := PagesFrom(second, deadline, 0, x.rest);
      Passes([first, second], deadline, s) == LinkRun(ExitOf(second, y.outcome), x.events + y.events, x.output + y.output)
  {
    var x := PagesFrom(first, deadline, 0, s);
    assert [first, second][1..] == [second];
    PassesOfOne(second, deadline, x.rest);
  }

  /** The probe `dev.expect(b'>')` right after opening the link, then the
      passes. Its result is ignored, and so is its `TimeoutError`, except
      that building the error's text decodes the buffer as code page 1252:
      a byte the code page leaves undefined raises `UnicodeDecodeError`,
      which nothing catches, so the run ends there. */
  function Connect(passes: seq<Pass>, deadline: nat, device: seq<Arrival>): LinkRun
  {
    var probe := ExpectSpec(device, [[PROMPT]], deadline);
    if probe.prompt.TimedOut? && !DecodesCp1252(probe.prompt.buf) then
      LinkRun(Undecodable(probe.prompt.buf), [Awaited(probe.prompt)], [])
    else
      var r := Passes(passes, deadline, probe.rest);
      LinkRun(r.exit, [Awaited(probe.prompt)] + r.events, r.output)
  }

  /** The host's messages in a run: a prefix of the plan, all of it on
      success, and after a failed page or a short read exactly the plan of
      the earlier passes followed by the aborted pass's script through the
      page it stopped on. A run aborted by a timeout ends on the `expect`
      that timed out, with the buffer reported; a run that could not
      report its probe's timeout sent nothing. */
  predicate FollowsPlan(passes: seq<Pass>, r: LinkRun)
  {
    && SentOf(r.events) <= Plan(passes)
    && (r.exit.Success? || r.exit.Aborted? || r.exit.Undecodable?)
    && (r.exit == Success ==> SentOf(r.events) == Plan(passes))
    && StopsInPlan(passes, r)
    && (r.exit.Aborted? && r.exit.outcome.Timeout? ==> EndsOnTimeout(r.events, r.exit.outcome.buffer))
    && (r.exit.Undecodable? ==> SentOf(r.events) == [] && EndsOnTimeout(r.events, r.exit.buffer))
  }

  predicate StopsInPlan(passes: seq<Pass>, r: LinkRun)
  {
    r.exit.Aborted? && (r.exit.outcome.Failed? || r.exit.outcome.ShortRead?) ==>
      exists i :: 0 <= i < |passes| && passes[i].command == r.exit.command &&
        SentOf(r.events) == Plan(passes[..i]) + Script(passes[i], 0, r.exit.outcome.page + 1)
  }

  lemma PlanFirst(passes: seq<Pass>, i: nat)
    requires 0 <= i < |passes|
    ensures Plan(passes[..i + 1]) == Script(passes[0], 0, PAGE_COUNT) + Plan(passes[1..][..i])
  {
    assert passes[..i + 1][1..] == passes[1..][..i];
  }

  lemma JoinWitness<T>(all: seq<T>, first: seq<T>, earlier: seq<T>, stop: seq<T>, upTo: seq<T>)
    requires all == first + (earlier + stop) && upTo == first + earlier
    ensures all == upTo + stop
  {
  }

  /** A stop in pass `i` after the scripts of the passes before it. */
  lemma StopsAt(passes: seq<Pass>, r: LinkRun, i: nat, upTo: seq<seq<byte>>, stop: seq<seq<byte>>)
    requires r.exit.Aborted? && (r.exit.outcome.Failed? || r.exit.outcome.ShortRead?)
    requires i < |passes| && passes[i].command == r.exit.command
    requires upTo == Plan(passes[..i]) && stop == Script(passes[i], 0, r.exit.outcome.page + 1)
    requires SentOf(r.events) == upTo + stop
    ensures StopsInPlan(passes, r)
  {
  }

  lemma CompletedThenStopsInPlan(passes: seq<Pass>, x: Transfer, later: LinkRun)
    requires passes != [] && x.outcome == Completed
    requires SentOf(x.events) == Script(passes[0], 0, PAGE_COUNT)
    requires StopsInPlan(passes[1..], later)
    ensures StopsInPlan(passes, Then(passes[0], x, later))
  {
    if later.exit.Aborted? && (later.exit.outcome.Failed? || later.exit.outcome.ShortRead?) {
      var i :| 0 <= i < |passes[1..]| && passes[1..][i].command == later.exit.command &&
        SentOf(later.events) == Plan(passes[1..][..i]) + Script(passes[1..][i], 0, later.exit.outcome.page + 1);
      StopInLaterPass(passes, x, later, i);
    }
  }

  /** The stop in pass `i` of the later passes is a stop in pass `i + 1`
      once the completed first pass is put in front. */
  lemma StopInLaterPass(passes: seq<Pass>, x: Transfer, later: LinkRun, i: nat)
    requires passes != [] && x.outcome == Completed
    requires SentOf(x.events) == Script(passes[0], 0, PAGE_COUNT)
    requires later.exit.Aborted? && (later.exit.outcome.Failed? || later.exit.outcome.ShortRead?)
    requires i < |passes[1..]| && passes[1..][i].command == later.exit.command
    requires SentOf(later.events) == Plan(passes[1..][..i]) + Script(passes[1..][i], 0, later.exit.outcome.page + 1)
    ensures StopsInPlan(passes, Then(passes[0], x, later))
  {
    var r := Then(passes[0], x, later);
    var first := Script(passes[0], 0, PAGE_COUNT);
    var earlier := Plan(passes[1..][..i]);
    var stop := Script(passes[1..][i], 0, later.exit.outcome.page + 1);
    TraceAppend(x.events, later.events);
    assert SentOf(r.events) == first + (earlier + stop);
    PlanFirst(passes, i);
    assert passes[i + 1] == passes[1..][i];
    var upTo := Plan(passes[..i + 1]);
    JoinWitness(SentOf(r.events), first, earlier, stop, upTo);
    StopsAt(passes, r, i + 1, upTo, stop);
  }

  lemma CompletedThenFollowsPlan(passes: seq<Pass>, x: Transfer, later: LinkRun)
    requires passes != [] && x.outcome == Completed
    requires SentOf(x.events) == Script(passes[0], 0, PAGE_COUNT)
    requires FollowsPlan(passes[1..], later) && !later.exit.Undecodable?
    ensures FollowsPlan(passes, Then(passes[0], x, later))
  {
    var first := Script(passes[0], 0, PAGE_COUNT);
    assert Plan(passes) == first + Plan(passes[1..]);
    TraceAppend(x.events, later.events);
    PrefixJoin(first, SentOf(later.events), Plan(passes[1..]));
    CompletedThenStopsInPlan(passes, x, later);
    if later.exit.Aborted? && later.exit.outcome.Timeout? {
      var all := x.events + later.events;
      assert all[|all| - 1] == later.events[|later.events| - 1];
    }
  }

  lemma StoppedThenFollowsPlan(passes: seq<Pass>, x: Transfer, later: LinkRun)
    requires passes != [] && x.outcome != Completed
    requires FollowsScript(passes[0], 0, x)
    ensures FollowsPlan(passes, Then(passes[0], x, later))
  {
    var r := Then(passes[0], x, later);
    var first := Script(passes[0], 0, PAGE_COUNT);
    assert Plan(passes) == first + Plan(passes[1..]);
    PrefixGrow(SentOf(x.events), first, Plan(passes[1..]));
    if x.outcome.Failed? || x.outcome.ShortRead? {
      assert passes[..0] == [];
      assert SentOf(r.events) == Plan(passes[..0]) + Script(passes[0], 0, r.exit.outcome.page + 1);
    }
  }

  /** Over any device behaviour, the passes send a prefix of the plan: the
      passes in order, each over the pages in order; every pass after the
      first starts only once the one before it completed. */
  lemma {:induction false} PassesFollowPlan(passes: seq<Pass>, deadline: nat, s: seq<Arrival>)
    ensures FollowsPlan(passes, Passes(passes, deadline, s))
    ensures !Passes(passes, deadline, s).exit.Undecodable?
    decreases |passes|
  {
    if passes != [] {
      var x := PagesFrom(passes[0], deadline, 0, s);
      PagesFollowScript(passes[0], deadline, 0, s);
      if x.outcome == Completed {
        PassesFollowPlan(passes[1..], deadline, x.rest);
        CompletedThenFollowsPlan(passes, x, Passes(passes[1..], deadline, x.rest));
      } else {
        StoppedThenFollowsPlan(passes, x, LinkRun(Success, [], []));
      }
    }
  }

  /** The probe sends nothing, so the run sends what its passes send. */
  lemma ConnectFollowsPlan(passes: seq<Pass>, deadline: nat, device: seq<Arrival>)
    ensures FollowsPlan(passes, Connect(passes, deadline, device))
  {
    var probe := ExpectSpec(device, [[PROMPT]], deadline);
    if probe.prompt.TimedOut? && !DecodesCp1252(probe.prompt.buf) {
      ProbeEndsRun(passes, probe.prompt);
    } else {
      PassesFollowPlan(passes, deadline, probe.rest);
      ProbeThenPasses(passes, probe.prompt, Passes(passes, deadline, probe.rest));
    }
  }

  /** A run that ends at the probe sent nothing and ends on the probe. */
  lemma ProbeEndsRun(passes: seq<Pass>, p: Prompt)
    requires p.TimedOut?
    ensures FollowsPlan(passes, LinkRun(Undecodable(p.buf), [Awaited(p)], []))
  {
    TraceOne(Awaited(p));
  }

  /** Putting the probe's wait in front of a run keeps it to the plan. */
  lemma ProbeThenPasses(passes: seq<Pass>, p: Prompt, r: LinkRun)
    requires FollowsPlan(passes, r) && !r.exit.Undecodable?
    ensures FollowsPlan(passes, LinkRun(r.exit, [Awaited(p)] + r.events, r.output))
  {
    TraceOne(Awaited(p));
    TraceAppend([Awaited(p)], r.events);
    if r.exit.Aborted? && r.exit.outcome.Timeout? {
      var all := [Awaited(p)] + r.events;
      assert all[|all| - 1] == r.events[|r.events| - 1];
    }
  }

  /** The probe decides whether the passes run: they do unless it timed
      out on a buffer that code page 1252 cannot decode. Then the run ends
      with that buffer, nothing sent and nothing written; otherwise the run
      is the probe followed by the passes on the arrivals after it. */
  lemma ProbeGate(passes: seq<Pass>, deadline: nat, device: seq<Arrival>)
    ensures var probe := ExpectSpec(device, [[PROMPT]], deadline);
      var r := Connect(passes, deadline, device);
      var p := Passes(passes, deadline, probe.rest);
      && (r.exit.Undecodable? <==> probe.prompt.TimedOut? && !DecodesCp1252(probe.prompt.buf))
      && (r.exit.Undecodable? ==> r.exit.buffer == probe.prompt.buf && r.events == [Awaited(probe.prompt)] && r.output == [])
      && (!r.exit.Undecodable? ==> r.exit == p.exit && r.events == [Awaited(probe.prompt)] + p.events && r.output == p.output)
  {
    var probe := ExpectSpec(device, [[PROMPT]], deadline);
    PassesFollowPlan(passes, deadline, probe.rest);
  }

  lemma ThenWritesWhatItRead(pass: Pass, x: Transfer, p: Prompt)
    requires pass.body.Receive? && WritesPagesRead(pass, 0, x)
    ensures var r := Then(pass, x, LinkRun(Success, [], []));
      var all := [Awaited(p)] + r.events;
      && |r.output| % PAGE_SIZE == 0
      && GotOf(all) == r.output + (if r.exit.Aborted? && r.exit.outcome.ShortRead? then r.exit.outcome.got else [])
      && (r.exit == Success ==> |r.output| == ROM_SIZE && r.output == GotOf(all))
  {
    var r := Then(pass, x, LinkRun(Success, [], []));
    assert r.events == x.events && r.output == x.output;
    TraceOne(Awaited(p));
    TraceAppend([Awaited(p)], r.events);
  }

  /** A run of one receiving pass, the dump: the file receives exactly the
      bytes of the completed page reads, in order; a completed dump is the
      whole 65536-byte image read. */
  lemma ReceiveWritesWhatItRead(pass: Pass, deadline: nat, device: seq<Arrival>)
    requires pass.body.Receive?
    ensures var r := Connect([pass], deadline, device);
      && |r.output| % PAGE_SIZE == 0
      && GotOf(r.events) == r.output + (if r.exit.Aborted? && r.exit.outcome.ShortRead? then r.exit.outcome.got else [])
      && (r.exit == Success ==> |r.output| == ROM_SIZE && r.output == GotOf(r.events))
  {
    var probe := ExpectSpec(device, [[PROMPT]], deadline);
    if probe.prompt.TimedOut? && !DecodesCp1252(probe.prompt.buf) {
      TraceOne(Awaited(probe.prompt));
    } else {
      var x := PagesFrom(pass, deadline, 0, probe.rest);
      PagesOutput(pass, deadline, 0, probe.rest);
      assert Passes([pass][1..], deadline, x.rest) == LinkRun(Success, [], []);
      assert Passes([pass], deadline, probe.rest) == Then(pass, x, LinkRun(Success, [], []));
      ThenWritesWhatItRead(pass, x, probe.prompt);
    }
  }

  /** A run that ended on a failed page ended on the completion text that
      lacked `b'OK'`: it is the last thing the host saw, it ends with `>`,
      and the diagnostic is that text without its `ready>` echoes. */
  predicate EndsOnMissingOk(r: LinkRun)
  {
    r.exit.Aborted? && r.exit.outcome.Failed? ==>
      && |r.events| > 0
      && var last := r.events[|r.events| - 1];
      && last.Awaited? && last.prompt.Matched? && EndsWith(last.prompt.buf, [PROMPT])
      && !Contains(last.prompt.buf, OK)
      && r.exit.outcome.diagnostic == StripReady(last.prompt.buf)
  }

  lemma {:induction false} PassesEndOnMissingOk(passes: seq<Pass>, deadline: nat, s: seq<Arrival>)
    ensures EndsOnMissingOk(Passes(passes, deadline, s))
    decreases |passes|
  {
    if passes != [] {
      var x := PagesFrom(passes[0], deadline, 0, s);
      FailureIsMissingOk(passes[0], deadline, 0, s);
      if x.outcome == Completed {
        var later := Passes(passes[1..], deadline, x.rest);
        PassesEndOnMissingOk(passes[1..], deadline, x.rest);
        if later.exit.Aborted? && later.exit.outcome.Failed? {
          var all := x.events + later.events;
          assert all[|all| - 1] == later.events[|later.events| - 1];
        }
      }
    }
  }

  lemma ConnectEndsOnMissingOk(passes: seq<Pass>, deadline: nat, device: seq<Arrival>)
    ensures EndsOnMissingOk(Connect(passes, deadline, device))
  {
    var probe := ExpectSpec(device, [[PROMPT]], deadline);
    var r := Passes(passes, deadline, probe.rest);
    PassesEndOnMissingOk(passes, deadline, probe.rest);
    if r.exit.Aborted? && r.exit.outcome.Failed? {
      var all := [Awaited(probe.prompt)] + r.events;
      assert all[|all| - 1] == r.events[|r.events| - 1];
    }
  }
}
