/** The serial link and `ExpectSerial.expect`, the prompt matcher that both
    scripts define identically.

    The device side of the link is a stream of arrivals. Each `read(size)`
    call of pyserial takes bytes from it until it has `size` of them or the
    per-read timeout elapses; a `Lull` is such a timeout. The wall-clock
    deadline of `expect` becomes a budget of `read()` calls. */
module Serial {
  import opened Bytes

  /** What the device makes available to the host: one byte, or a silence
      long enough for the per-read timeout to elapse. */
  datatype Arrival = Data(b: byte) | Lull

  /** The bytes one read call returns and the arrivals it leaves behind. */
  datatype Chunk = Chunk(data: seq<byte>, rest: seq<Arrival>)

  function Arrivals(bytes: seq<byte>): (r: seq<Arrival>)
    ensures |r| == |bytes| && forall i :: 0 <= i < |bytes| ==> r[i] == Data(bytes[i])
  {
    seq(|bytes|, i requires 0 <= i < |bytes| => Data(bytes[i]))
  }

  /** `read(size)`: returns at most `size` bytes. A short result means the
      per-read timeout elapsed (the lull is consumed) or the device never
      sends again. */
  function Take(s: seq<Arrival>, size: nat): (c: Chunk)
    ensures |c.data| <= size
    ensures s == Arrivals(c.data) + (if |c.data| < size && |c.data| < |s| then [Lull] else []) + c.rest
    decreases size
  {
    if size == 0 || s == [] then Chunk([], s)
    else match s[0]
      case Lull => Chunk([], s[1..])
      case Data(b) =>
        var c := Take(s[1..], size - 1);
        assert Arrivals([b] + c.data) == [Data(b)] + Arrivals(c.data);
        Chunk([b] + c.data, c.rest)
  }

  /** A `read(size)` that finds `size` bytes waiting returns them all. */
  lemma {:induction false} TakeWhole(bytes: seq<byte>, rest: seq<Arrival>)
    ensures Take(Arrivals(bytes) + rest, |bytes|) == Chunk(bytes, rest)
  {
    if bytes != [] {
      var s := Arrivals(bytes) + rest;
      assert s[0] == Data(bytes[0]);
      assert s[1..] == Arrivals(bytes[1..]) + rest;
      TakeWhole(bytes[1..], rest);
      assert [bytes[0]] + bytes[1..] == bytes;
    } else {
      assert Arrivals(bytes) + rest == rest;
    }
  }

  /** `read()`, pyserial's `read(1)`: one byte, or nothing once the
      per-read timeout elapses. */
  function ReadOne(s: seq<Arrival>): (c: Chunk)
  {
    if s == [] then Chunk([], s)
    else match s[0]
      case Data(b) => Chunk([b], s[1..])
      case Lull => Chunk([], s[1..])
  }

  lemma ReadOneIsTake(s: seq<Arrival>)
    ensures ReadOne(s) == Take(s, 1)
  {
  }

  /** How an `expect` call ends: it returns the buffer that ends with a
      terminator, or it raises `TimeoutError` carrying the buffer. */
  datatype Prompt = Matched(buf: seq<byte>) | TimedOut(buf: seq<byte>)

  datatype Heard = Heard(prompt: Prompt, rest: seq<Arrival>)

  /** One interaction of the host with the link, as recorded in the trace. */
  datatype Event =
    | Sent(data: seq<byte>)      // host -> device `write`
    | Got(data: seq<byte>)       // a `read(size)` made by the host script
    | Awaited(prompt: Prompt)    // an `expect` call and how it ended

  /** The `expect` loop with `budget` read() calls left and `buf` read so far. */
  function ExpectLoop(s: seq<Arrival>, terms: seq<seq<byte>>, budget: nat, buf: seq<byte>): (h: Heard)
    ensures h.prompt.Matched? ==> EndsWithAny(h.prompt.buf, terms)
    ensures buf <= h.prompt.buf
    ensures |h.rest| <= |s|
    decreases budget
  {
    if budget == 0 then Heard(TimedOut(buf), s)
    else
      var c := ReadOne(s);
      var grown := buf + c.data;
      if EndsWithAny(grown, terms) then Heard(Matched(grown), c.rest)
      else
        ExpectLoop(c.rest, terms, budget - 1, grown)
  }

  /** `expect` only consumes the link: what it leaves is what followed the
      bytes it read. */
  lemma {:induction false} ExpectConsumes(s: seq<Arrival>, terms: seq<seq<byte>>, budget: nat, buf: seq<byte>)
    ensures var h := ExpectLoop(s, terms, budget, buf);
      h.rest == s[|s| - |h.rest|..]
    decreases budget
  {
    if budget > 0 {
      var c := ReadOne(s);
      if !EndsWithAny(buf + c.data, terms) {
        ExpectConsumes(c.rest, terms, budget - 1, buf + c.data);
        var h := ExpectLoop(c.rest, terms, budget - 1, buf + c.data);
        assert c.rest == s[|s| - |c.rest|..];
      }
    }
  }

  /** `text` ends with the byte `t` and holds it nowhere else. */
  predicate EndsOnlyWith(text: seq<byte>, t: byte)
  {
    |text| > 0 && (if |text| == 1 then text[0] == t else text[0] != t && EndsOnlyWith(text[1..], t))
  }

  /** A device that sends `text` byte by byte, its one terminator last, is
      heard as exactly `text`: the match comes with the terminator's read
      and not later, and the stream resumes right after it. */
  lemma {:induction false} HearsReply(text: seq<byte>, t: byte, rest: seq<Arrival>, budget: nat, buf: seq<byte>)
    requires EndsOnlyWith(text, t) && |text| <= budget
    ensures ExpectLoop(Arrivals(text) + rest, [[t]], budget, buf) == Heard(Matched(buf + text), rest)
    decreases |text|
  {
    var tail := ReadFirst(text, rest);
    if |text| == 1 {
      HearsLast(text, t, rest, budget, buf, tail);
    } else {
      HearsReply(text[1..], t, rest, budget - 1, buf + [text[0]]);
      HearsNext(text, t, rest, budget, buf, tail);
    }
  }

  /** The read of the terminator ends the wait. */
  lemma HearsLast(text: seq<byte>, t: byte, rest: seq<Arrival>, budget: nat, buf: seq<byte>, tail: seq<Arrival>)
    requires |text| == 1 && text[0] == t && budget > 0
    requires tail == Arrivals(text[1..]) + rest && ReadOne(Arrivals(text) + rest) == Chunk([text[0]], tail)
    ensures ExpectLoop(Arrivals(text) + rest, [[t]], budget, buf) == Heard(Matched(buf + text), rest)
  {
    var grown := buf + [text[0]];
    LoopStep(Arrivals(text) + rest, [[t]], budget, buf, Chunk([text[0]], tail));
    HeardAt(grown, t);
    assert grown == buf + text;
    assert tail == rest;
  }

  /** The read of any other byte of the reply leaves the wait to go on. */
  lemma HearsNext(text: seq<byte>, t: byte, rest: seq<Arrival>, budget: nat, buf: seq<byte>, tail: seq<Arrival>)
    requires |text| > 1 && text[0] != t && budget > 0
    requires tail == Arrivals(text[1..]) + rest && ReadOne(Arrivals(text) + rest) == Chunk([text[0]], tail)
    requires ExpectLoop(tail, [[t]], budget - 1, buf + [text[0]]) == Heard(Matched((buf + [text[0]]) + text[1..]), rest)
    ensures ExpectLoop(Arrivals(text) + rest, [[t]], budget, buf) == Heard(Matched(buf + text), rest)
  {
    var grown := buf + [text[0]];
    LoopStep(Arrivals(text) + rest, [[t]], budget, buf, Chunk([text[0]], tail));
    NotHeardYet(grown, text[0], t);
    AppendHead(buf, text);
  }

  lemma AppendHead(buf: seq<byte>, text: seq<byte>)
    requires text != []
    ensures (buf + [text[0]]) + text[1..] == buf + text
  {
    assert [text[0]] + text[1..] == text;
  }

  lemma LoopStep(s: seq<Arrival>, terms: seq<seq<byte>>, budget: nat, buf: seq<byte>, c: Chunk)
    requires budget > 0 && c == ReadOne(s)
    ensures ExpectLoop(s, terms, budget, buf)
         == if EndsWithAny(buf + c.data, terms) then Heard(Matched(buf + c.data), c.rest)
            else ExpectLoop(c.rest, terms, budget - 1, buf + c.data)
  {
  }

  lemma HeardAt(grown: seq<byte>, t: byte)
    requires grown != [] && grown[|grown| - 1] == t
    ensures EndsWithAny(grown, [[t]])
  {
    EndsWithOne(grown, [t]);
    assert grown[|grown| - 1..] == [t];
  }

  lemma NotHeardYet(grown: seq<byte>, b: byte, t: byte)
    requires grown != [] && grown[|grown| - 1] == b && b != t
    ensures !EndsWithAny(grown, [[t]])
  {
    EndsWithOne(grown, [t]);
    assert grown[|grown| - 1..] == [b];
  }

  /** `expect` fed a reply one byte at a time returns as soon as the
      reply's terminator arrives, with the reply as its buffer. */
  lemma ExpectHearsReply(text: seq<byte>, t: byte, rest: seq<Arrival>, deadline: nat)
    requires EndsOnlyWith(text, t) && |text| <= deadline
    ensures ExpectSpec(Arrivals(text) + rest, [[t]], deadline) == Heard(Matched(text), rest)
  {
    HearsReply(text, t, rest, deadline, []);
    assert [] + text == text;
  }

  lemma ReadFirst(text: seq<byte>, rest: seq<Arrival>) returns (tail: seq<Arrival>)
    requires text != []
    ensures tail == Arrivals(text[1..]) + rest
    ensures ReadOne(Arrivals(text) + rest) == Chunk([text[0]], tail)
  {
    var s := Arrivals(text) + rest;
    assert s[0] == Data(text[0]);
    assert s[1..] == Arrivals(text[1..]) + rest;
    tail := s[1..];
  }

  /** `expect(*terms)` with a deadline of `deadline` read() calls. */
  function ExpectSpec(s: seq<Arrival>, terms: seq<seq<byte>>, deadline: nat): Heard
  {
    ExpectLoop(s, terms, deadline, [])
  }

  /** The arrivals left after `k` read() calls. */
  function Remaining(s: seq<Arrival>, k: nat): seq<Arrival>
  {
    if k == 0 then s else ReadOne(Remaining(s, k - 1)).rest
  }

  /** The bytes that `k` read() calls return, concatenated. */
  function Received(s: seq<Arrival>, k: nat): seq<byte>
  {
    if k == 0 then [] else Received(s, k - 1) + ReadOne(Remaining(s, k - 1)).data
  }

  /** None of the buffers after reads 1..k ends with a terminator. */
  ghost predicate NoMatchThrough(s: seq<Arrival>, terms: seq<seq<byte>>, k: nat)
  {
    forall j :: 1 <= j <= k ==> !EndsWithAny(Received(s, j), terms)
  }

  lemma {:induction false} ExpectAfter(s: seq<Arrival>, terms: seq<seq<byte>>, deadline: nat, i: nat)
    requires i <= deadline
    requires NoMatchThrough(s, terms, i)
    ensures ExpectSpec(s, terms, deadline) == ExpectLoop(Remaining(s, i), terms, deadline - i, Received(s, i))
  {
    if i > 0 {
      ExpectAfter(s, terms, deadline, i - 1);
      assert !EndsWithAny(Received(s, i), terms);
    }
  }

  /** `expect` returns the accumulated buffer the first time it ends with a
      terminator: with k the first read after which the buffer matches, the
      result is exactly the bytes of reads 1..k and the stream resumes after
      read k. When no read within the deadline makes the buffer match, it
      times out with everything read. So the matcher never waits for bytes
      beyond the terminator and never gives up while the deadline lasts. */
  lemma ExpectReturnsFirstMatch(s: seq<Arrival>, terms: seq<seq<byte>>, deadline: nat) returns (k: nat)
    ensures 1 <= k <= deadline + 1
    ensures NoMatchThrough(s, terms, k - 1)
    ensures k <= deadline ==>
      && EndsWithAny(Received(s, k), terms)
      && ExpectSpec(s, terms, deadline) == Heard(Matched(Received(s, k)), Remaining(s, k))
    ensures k == deadline + 1 ==>
      ExpectSpec(s, terms, deadline) == Heard(TimedOut(Received(s, deadline)), Remaining(s, deadline))
  {
    k := 1;
    while k <= deadline && !EndsWithAny(Received(s, k), terms)
      invariant 1 <= k <= deadline + 1
      invariant NoMatchThrough(s, terms, k - 1)
    {
      k := k + 1;
    }
    ExpectAfter(s, terms, deadline, k - 1);
  }

  /** The inner `for char in characters: if buf.endswith(char)` test. */
  method MatchesAny(buf: seq<byte>, terms: seq<seq<byte>>) returns (hit: bool)
    ensures hit <==> EndsWithAny(buf, terms)
  {
    var i := 0;
    while i < |terms|
      invariant 0 <= i <= |terms|
      invariant forall j :: 0 <= j < i ==> !EndsWith(buf, terms[j])
    {
      if EndsWith(buf, terms[i]) {
        return true;
      }
      i := i + 1;
    }
    return false;
  }

  /** `ExpectSerial`: the serial port with what the device has yet to send
      and the trace of everything the host did on it. */
  class ExpectSerial {
    var incoming: seq<Arrival>
    var log: seq<Event>

    constructor (device: seq<Arrival>)
      ensures incoming == device && log == []
    {
      incoming := device;
      log := [];
    }

    /** `write(data)`: the bytes go out verbatim. */
    method Write(data: seq<byte>)
      modifies this
      ensures incoming == old(incoming)
      ensures log == old(log) + [Sent(data)]
    {
      log := log + [Sent(data)];
    }

    /** `read(size)` */
    method Read(size: nat) returns (data: seq<byte>)
      modifies this
      ensures Take(old(incoming), size) == Chunk(data, incoming)
      ensures log == old(log) + [Got(data)]
    {
      var c := Take(incoming, size);
      data, incoming := c.data, c.rest;
      log := log + [Got(data)];
    }

    /** `expect(*terms)`: appends what each read() returns to a buffer and
        returns the buffer as soon as it ends with a terminator. */
    method Expect(terms: seq<seq<byte>>, deadline: nat) returns (p: Prompt)
      modifies this
      ensures ExpectSpec(old(incoming), terms, deadline) == Heard(p, incoming)
      ensures log == old(log) + [Awaited(p)]
    {
      var buf := [];
      var budget := deadline;
      while budget > 0
        invariant ExpectLoop(incoming, terms, budget, buf) == ExpectSpec(old(incoming), terms, deadline)
        invariant log == old(log)
      {
        var c := ReadOne(incoming);
        incoming := c.rest;
        buf := buf + c.data;
        var hit := MatchesAny(buf, terms);
        if hit {
          p := Matched(buf);
          log := log + [Awaited(p)];
          return;
        }
        budget := budget - 1;
      }
      p := TimedOut(buf);
      log := log + [Awaited(p)];
    }
  }
}
