/** Byte strings as the two programmer scripts use them: Python `bytes`
    values, `endswith`, the `in` substring test and `bytes.replace`. */
module Bytes {

  type byte = x: int | 0 <= x < 256

  /** b'#': the device is ready to exchange a page payload. */
  const HASH: byte := 35
  /** b'>': the device is back at its idle prompt. */
  const PROMPT: byte := 62
  const SPACE: byte := 32
  const NEWLINE: byte := 10
  const DIGIT_ZERO: byte := 48

  /** b'OK', the success marker of a write or verify page. */
  const OK: seq<byte> := [79, 75]
  /** b'ready>', the idle prompt echo removed from diagnostics. */
  const READY: seq<byte> := [114, 101, 97, 100, 121, 62]

  /** `buf.endswith(suffix)` */
  predicate EndsWith(buf: seq<byte>, suffix: seq<byte>)
  {
    |suffix| <= |buf| && buf[|buf| - |suffix|..] == suffix
  }

  /** Some terminator of `terms` is a suffix of `buf`. */
  predicate EndsWithAny(buf: seq<byte>, terms: seq<seq<byte>>)
  {
    exists t :: t in terms && EndsWith(buf, t)
  }

  lemma EndsWithOne(buf: seq<byte>, t: seq<byte>)
    ensures EndsWithAny(buf, [t]) <==> EndsWith(buf, t)
  {
    if EndsWithAny(buf, [t]) {
      var u :| u in [t] && EndsWith(buf, u);
    } else {
      assert t in [t];
    }
  }

  /** `needle` occurs in `hay` starting at index `i`. */
  predicate OccursAt(hay: seq<byte>, needle: seq<byte>, i: int)
  {
    0 <= i && i + |needle| <= |hay| && hay[i..i + |needle|] == needle
  }

  lemma OccursShift(hay: seq<byte>, needle: seq<byte>)
    requires |hay| >= 1
    ensures (exists i :: OccursAt(hay, needle, i))
        <==> OccursAt(hay, needle, 0) || exists i :: OccursAt(hay[1..], needle, i)
  {
    forall i | OccursAt(hay[1..], needle, i)
      ensures OccursAt(hay, needle, i + 1)
    {
      assert hay[i + 1..i + 1 + |needle|] == hay[1..][i..i + |needle|];
    }
    forall i | OccursAt(hay, needle, i) && i > 0
      ensures OccursAt(hay[1..], needle, i - 1)
    {
      var j := i - 1;
      assert hay[1..][j..j + |needle|] == hay[j + 1..j + 1 + |needle|];
    }
  }

  /** `needle in hay` on bytes values: true exactly when `needle` occurs
      somewhere in `hay`. */
  function Contains(hay: seq<byte>, needle: seq<byte>): (r: bool)
    ensures r <==> exists i :: OccursAt(hay, needle, i)
    decreases |hay|
  {
    if |hay| < |needle| then false
    else if hay[..|needle|] == needle then (assert OccursAt(hay, needle, 0); true)
    else (OccursShift(hay, needle); Contains(hay[1..], needle))
  }

  /** `hay.replace(b'ready>', b'')`: scans left to right and drops every
      non-overlapping occurrence of the prompt echo. */
  function StripReady(hay: seq<byte>): (r: seq<byte>)
    ensures |r| <= |hay|
    decreases |hay|
  {
    if |hay| < |READY| then hay
    else if hay[..|READY|] == READY then StripReady(hay[|READY|..])
    else [hay[0]] + StripReady(hay[1..])
  }

  /** The result is the input with whole copies of the echo removed. */
  lemma {:induction false} StripRemovesWholeEchoes(hay: seq<byte>)
    ensures (|hay| - |StripReady(hay)|) % |READY| == 0
    decreases |hay|
  {
    if |hay| >= |READY| {
      if hay[..|READY|] == READY {
        StripRemovesWholeEchoes(hay[|READY|..]);
      } else {
        StripRemovesWholeEchoes(hay[1..]);
      }
    }
  }

  /** Text without any echo comes back unchanged. */
  lemma {:induction false} StripWithoutEcho(hay: seq<byte>)
    requires !Contains(hay, READY)
    ensures StripReady(hay) == hay
    decreases |hay|
  {
    if |hay| >= |READY| {
      assert !OccursAt(hay, READY, 0);
      NoEchoInTail(hay);
      StripWithoutEcho(hay[1..]);
      assert [hay[0]] + hay[1..] == hay;
    }
  }

  lemma NoEchoInTail(text: seq<byte>)
    requires text != [] && !Contains(text, READY)
    ensures !Contains(text[1..], READY)
  {
    OccursShift(text, READY);
  }

  /** A reply with at least one byte of status text and no echo in it
      does not start with the echo, even once the echo is appended. */
  lemma EchoNotAtHead(text: seq<byte>)
    requires text != [] && !Contains(text, READY)
    ensures (text + READY)[..|READY|] != READY
  {
    var h := text + READY;
    if |text| >= |READY| {
      assert !OccursAt(text, READY, 0);
      assert h[..|READY|] == text[0..|READY|];
    } else {
      // h[..6] would end with a proper prefix of the echo, but the echo's
      // last byte '>' occurs nowhere else in it.
      var k := |READY| - 1 - |text|;
      assert h[|READY| - 1] == READY[k];
      assert READY[k] != PROMPT;
    }
  }

  /** `replace` works from the left: the text before the first echo is
      kept, that echo is dropped, and the scan resumes right after it.
      With `StripWithoutEcho` this determines the result on every input. */
  lemma {:induction false} StripAtFirstEcho(hay: seq<byte>, i: nat)
    requires OccursAt(hay, READY, i)
    requires forall j :: 0 <= j < i ==> !OccursAt(hay, READY, j)
    ensures StripReady(hay) == hay[..i] + StripReady(hay[i + |READY|..])
    decreases i
  {
    if i == 0 {
      assert hay[..|READY|] == READY;
    } else {
      assert !OccursAt(hay, READY, 0);
      StripAtNonEcho(hay);
      FirstEchoInTail(hay, i);
      StripAtFirstEcho(hay[1..], i - 1);
      KeptHead(hay, i);
    }
  }

  lemma FirstEchoInTail(hay: seq<byte>, i: nat)
    requires 0 < i && OccursAt(hay, READY, i)
    requires forall j :: 0 <= j < i ==> !OccursAt(hay, READY, j)
    ensures OccursAt(hay[1..], READY, i - 1)
    ensures forall j :: 0 <= j < i - 1 ==> !OccursAt(hay[1..], READY, j)
  {
    assert hay[1..][i - 1..i - 1 + |READY|] == hay[i..i + |READY|];
    forall j | 0 <= j < i - 1
      ensures !OccursAt(hay[1..], READY, j)
    {
      assert hay[1..][j..j + |READY|] == hay[j + 1..j + 1 + |READY|];
      assert !OccursAt(hay, READY, j + 1);
    }
  }

  lemma KeptHead(hay: seq<byte>, i: nat)
    requires 0 < i && i + |READY| <= |hay|
    ensures [hay[0]] + (hay[1..][..i - 1] + StripReady(hay[1..][i - 1 + |READY|..]))
         == hay[..i] + StripReady(hay[i + |READY|..])
  {
    assert hay[1..][i - 1 + |READY|..] == hay[i + |READY|..];
    assert [hay[0]] + hay[1..][..i - 1] == hay[..i];
  }

  lemma StripAtNonEcho(h: seq<byte>)
    requires |h| >= |READY| && h[..|READY|] != READY
    ensures StripReady(h) == [h[0]] + StripReady(h[1..])
  {
  }

  /** A device reply that carries its status text followed by one prompt
      echo is reported as just the status text. This holds because no
      proper suffix of `ready>` is also a prefix of it. */
  lemma {:induction false} StripTrailingEcho(text: seq<byte>)
    requires !Contains(text, READY)
    ensures StripReady(text + READY) == text
    decreases |text|
  {
    if text == [] {
      assert text + READY == READY && READY[|READY|..] == [];
    } else {
      EchoNotAtHead(text);
      NoEchoInTail(text);
      StripTrailingEcho(text[1..]);
      var h := text + READY;
      assert h[1..] == text[1..] + READY;
      StripAtNonEcho(h);
      assert [text[0]] + text[1..] == text;
    }
  }

  /** The five bytes that code page 1252 leaves undefined; Python's
      `cp1252` codec raises `UnicodeDecodeError` on each of them. */
  predicate Cp1252Undefined(b: byte)
  {
    b == 0x81 || b == 0x8D || b == 0x8F || b == 0x90 || b == 0x9D
  }

  /** `buf.decode("cp1252")` succeeds: it fails exactly when some byte of
      `buf` is undefined in the code page. */
  function DecodesCp1252(buf: seq<byte>): (r: bool)
    ensures r <==> forall i :: 0 <= i < |buf| ==> !Cp1252Undefined(buf[i])
  {
    if buf == [] then true
    else
      assert forall i :: 1 <= i < |buf| ==> buf[i] == buf[1..][i - 1];
      !Cp1252Undefined(buf[0]) && DecodesCp1252(buf[1..])
  }
}
