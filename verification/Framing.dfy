/** Cutting a byte stream into messages, however the underlying reader splits it. */
module Framing {
  import opened Bytes
  import opened Wire
  import opened Grammar

  datatype Result =
    | Message(t: TTLV)
    | BadHeader(header: TTLV, error: Error)
    | EndOfStream                 // fewer than eight bytes left
    | Truncated(partial: TTLV)    // the stream ended inside a message

  /** What NextTTLV returns when `rest` is left in the stream. */
  function NextMessage(rest: seq<Byte>): Result
  {
    if |rest| < HEADER then EndOfStream
    else
      var header := rest[..HEADER];
      if ValidHeader(header).Fail? then BadHeader(header, ValidHeader(header).error)
      else if |rest| < FullLen(header) then Truncated(rest + Zeros(FullLen(header) - |rest|))
      else Message(rest[..FullLen(header)])
  }

  /** What it leaves in the stream: a rejected header is only peeked at. */
  function Remaining(rest: seq<Byte>): seq<Byte>
  {
    match NextMessage(rest)
    case Message(t) => (if |t| <= |rest| then rest[|t|..] else [])
    case Truncated(_) => []
    case _ => rest
  }

  /** bufio.Reader over a reader that delivers nonempty chunks of any size. */
  class Decoder {
    const size: nat
    var buffered: seq<Byte>
    var chunks: seq<seq<Byte>>

    ghost predicate Valid()
      reads this
    {
      size >= 16 && |buffered| <= size && forall i :: 0 <= i < |chunks| ==> chunks[i] != []
    }

    ghost function Rest(): seq<Byte>
      reads this
    {
      buffered + Flatten(chunks)
    }

    constructor (size: nat, chunks: seq<seq<Byte>>)
      requires size >= 16 && forall i :: 0 <= i < |chunks| ==> chunks[i] != []
      ensures Valid() && Rest() == Flatten(chunks)
    {
      this.size, this.chunks, buffered := size, chunks, [];
    }

    /** One Read of the underlying reader of at most `max` bytes; empty at end of stream. */
    method Pull(max: nat) returns (p: seq<Byte>)
      requires Valid() && max > 0
      modifies this`chunks
      ensures Valid() && |p| <= max
      ensures old(Flatten(chunks)) == p + Flatten(chunks)
      ensures p == [] ==> old(chunks) == []
    {
      if chunks == [] {
        return [];
      }
      var c := chunks[0];
      ghost var tail := Flatten(chunks[1..]);
      if |c| <= max {
        chunks := chunks[1..];
        return c;
      }
      p := c[..max];
      SplitOff(c, max, tail);
      chunks := [c[max..]] + chunks[1..];
    }

    /** Peek(8): fill the buffer until eight bytes are there or the stream ends. */
    method Peek() returns (header: seq<Byte>)
      requires Valid()
      modifies this
      ensures Valid() && Rest() == old(Rest())
      ensures if |Rest()| < HEADER then |header| < HEADER else header == Rest()[..HEADER] && |buffered| >= HEADER
    {
      while |buffered| < HEADER
        invariant Valid() && Rest() == old(Rest())
        decreases HEADER - |buffered|
      {
        ghost var b, c := buffered, Flatten(chunks);
        var p := Pull(size - |buffered|);
        if p == [] {
          return buffered;
        }
        ConcatAssociative(b, p, Flatten(chunks));
        buffered := buffered + p;
      }
      header := buffered[..HEADER];
    }

    /** Read of at most `max` bytes: from the buffer, or once from below when it is empty. */
    method Read(max: nat) returns (p: seq<Byte>)
      requires Valid() && max > 0
      modifies this
      ensures Valid() && |p| <= max
      ensures old(Rest()) == p + Rest()
      ensures p == [] ==> old(Rest()) == []
    {
      if buffered == [] {
        if max >= size {
          p := Pull(max);
          return;
        }
        buffered := Pull(size);
        if buffered == [] {
          return [];
        }
      }
      var n := if |buffered| < max then |buffered| else max;
      p := buffered[..n];
      SplitOff(buffered, n, Flatten(chunks));
      buffered := buffered[n..];
    }

    /** One Read into the unfilled part of a buffer. */
    method ReadInto(buf: array<Byte>, at: nat) returns (n: nat)
      requires Valid() && at < buf.Length
      modifies this, buf
      ensures Valid() && at + n <= buf.Length
      ensures buf[..at + n] + Rest() == old(buf[..at]) + old(Rest())
      ensures forall i :: at + n <= i < buf.Length ==> buf[i] == old(buf[i])
      ensures n == 0 ==> old(Rest()) == []
    {
      ghost var done := buf[..at];
      var p := Read(buf.Length - at);
      ConcatAssociative(done, p, Rest());
      CopyInto(buf, at, p);
      n := |p|;
    }

    /** Read until a buffer of `fullLen` bytes is full or the stream ends. */
    method ReadFull(fullLen: nat) returns (message: seq<Byte>, complete: bool)
      requires Valid() && fullLen > 0
      modifies this
      ensures Valid() && complete == (|old(Rest())| >= fullLen)
      ensures if complete then old(Rest()) == message + Rest() && |message| == fullLen
              else Rest() == [] && message == old(Rest()) + Zeros(fullLen - |old(Rest())|)
    {
      ghost var all := Rest();
      var buf := new Byte[fullLen](_ => 0);
      var totRead := 0;
      assert buf[..totRead] + Rest() == all;
      while true
        invariant Valid() && fresh(buf) && buf.Length == fullLen && 0 <= totRead < fullLen
        invariant buf[..totRead] + Rest() == all
        invariant forall i :: totRead <= i < fullLen ==> buf[i] == 0
        decreases fullLen - totRead
      {
        var n := ReadInto(buf, totRead);
        totRead := totRead + n;
        message := buf[..];
        assert message[..totRead] == buf[..totRead];
        if n == 0 {
          CutOff(message, totRead, Rest(), all);
          return message, false;
        }
        if totRead >= fullLen {
          WholeSlice(message, totRead);
          return message, true;
        }
      }
    }

    /** NextTTLV: peek at the header, then read the whole message into a buffer of its length. */
    method NextTTLV() returns (r: Result)
      requires Valid()
      modifies this
      ensures Valid()
      ensures r == NextMessage(old(Rest())) && Rest() == Remaining(old(Rest()))
    {
      var header := Peek();
      if |header| < HEADER {
        return EndOfStream;
      }
      if ValidHeader(header).Fail? {
        return BadHeader(header, ValidHeader(header).error);
      }
      ghost var all := Rest();
      var message, complete := ReadFull(FullLen(header));
      if !complete {
        return Truncated(message);
      }
      ConcatSlices(message, Rest());
      return Message(message);
    }

    /** The request loop of a connection: messages until the stream ends or misbehaves. */
    method ReadMessages() returns (ms: seq<TTLV>, last: Result)
      requires Valid()
      modifies this
      ensures Valid()
      ensures ms == Messages(old(Rest())) && last == Stop(old(Rest()))
    {
      ms := [];
      while true
        invariant Valid()
        invariant ms + Messages(Rest()) == Messages(old(Rest()))
        invariant Stop(Rest()) == Stop(old(Rest()))
        decreases |Rest()|
      {
        ghost var rest := Rest();
        last := NextTTLV();
        if !last.Message? {
          assert ms + [] == ms;
          return;
        }
        ConcatAssociative(ms, [last.t], Messages(Rest()));
        ms := ms + [last.t];
      }
    }
  }

  /** Successive messages of a stream, and what ends them. */
  function Messages(rest: seq<Byte>): seq<TTLV>
  {
    var r := NextMessage(rest);
    if !r.Message? then [] else [r.t] + Messages(Remaining(rest))
  }

  function Stop(rest: seq<Byte>): Result
  {
    var r := NextMessage(rest);
    if !r.Message? then r else Stop(Remaining(rest))
  }

  /** Exactly what each answer means: a message is a prefix of the stream with a good header and the
      length it declares; anything else is told apart by the eight bytes of the header. */
  lemma NextExact(rest: seq<Byte>, r: Result)
    ensures NextMessage(rest) == r <==>
              match r
              case Message(t) => t <= rest && |t| >= HEADER && ValidHeader(t).Pass? && FullLen(t) == |t|
              case EndOfStream => |rest| < HEADER
              case BadHeader(h, e) => |rest| >= HEADER && h == rest[..HEADER] && ValidHeader(rest) == Fail(e)
              case Truncated(p) =>
                && |rest| >= HEADER && ValidHeader(rest).Pass? && |rest| < FullLen(rest) == |p|
                && rest <= p && forall i :: |rest| <= i < |p| ==> p[i] == 0
  {
    if |rest| >= HEADER {
      TrailingHeader(rest[..HEADER], rest[HEADER..]);
      assert rest[..HEADER] + rest[HEADER..] == rest;
      match r
      case Message(t) =>
        if t <= rest && |t| >= HEADER {
          PrefixHeader(t, rest);
        }
      case Truncated(p) =>
        if rest <= p && forall i :: |rest| <= i < |p| ==> p[i] == 0 {
          PadEnd(p, |rest|);
          assert p[..|rest|] == rest;
        }
      case _ =>
    }
  }

  lemma PrefixHeader(t: TTLV, rest: TTLV)
    requires HEADER <= |t| && t <= rest
    ensures t[..HEADER] == rest[..HEADER] && ValidHeader(t) == ValidHeader(rest)
    ensures ValidHeader(t).Pass? ==> FullLen(t) == FullLen(rest[..HEADER])
  {
    TrailingHeader(t[..HEADER], t[HEADER..]);
    TrailingHeader(rest[..HEADER], rest[HEADER..]);
    assert t[..HEADER] + t[HEADER..] == t && rest[..HEADER] + rest[HEADER..] == rest;
  }

  /** A message is taken out of the stream, a cut-off one empties it, a bad header stays. */
  lemma RemainingExact(rest: seq<Byte>)
    ensures match NextMessage(rest)
            case Message(t) => rest == t + Remaining(rest)
            case Truncated(_) => Remaining(rest) == []
            case _ => Remaining(rest) == rest
  {
    NextExact(rest, NextMessage(rest));
  }

  /** A complete message by its own header. */
  predicate Framed(t: TTLV)
  {
    |t| >= HEADER && ValidHeader(t).Pass? && FullLen(t) == |t|
  }

  /** The successive messages of a stream, and what ends them, are the only way to cut it into
      complete messages followed by something that is not one. */
  lemma {:induction false} StreamExact(rest: seq<Byte>, ms: seq<TTLV>, tail: seq<Byte>)
    requires rest == Flatten(ms) + tail && forall i :: 0 <= i < |ms| ==> Framed(ms[i])
    requires !NextMessage(tail).Message?
    ensures Messages(rest) == ms && Stop(rest) == NextMessage(tail)
    decreases |ms|
  {
    if ms == [] {
      assert rest == tail;
    } else {
      var others := Flatten(ms[1..]) + tail;
      ConcatAssociative(ms[0], Flatten(ms[1..]), tail);
      StreamExact(others, ms[1..], tail);
      FirstFramed(ms[0], others);
      HeadTail(ms);
    }
  }

  lemma FirstFramed(t: TTLV, others: seq<Byte>)
    requires Framed(t)
    ensures NextMessage(t + others) == Message(t) && Remaining(t + others) == others
  {
    NextExact(t + others, Message(t));
    ConcatSlices(t, others);
  }

  lemma NextIsFirst(n: Node, rest: seq<Byte>)
    requires WellFormed(n)
    ensures NextMessage(Render(n) + rest) == Message(Render(n)) && Remaining(Render(n) + rest) == rest
  {
    var all := Render(n) + rest;
    ReadBack(n, rest);
    var header := all[..HEADER];
    TrailingHeader(header, all[HEADER..]);
    assert header + all[HEADER..] == all;
    ConcatSlices(Render(n), rest);
  }

  /** A full header determines its checks and the length of its message. */
  lemma TrailingHeader(h: TTLV, s: seq<Byte>)
    requires |h| == HEADER
    ensures ValidHeader(h) == ValidHeader(h + s)
    ensures ValidHeader(h).Pass? ==> FullLen(h) == FullLen(h + s)
  {
    assert (h + s)[..3] == h[..3] && (h + s)[4..8] == h[4..8];
  }

  lemma FramesFirst(n: Node, rest: seq<Byte>)
    requires WellFormed(n)
    ensures Messages(Render(n) + rest) == [Render(n)] + Messages(rest)
    ensures Stop(Render(n) + rest) == Stop(rest)
  {
    NextIsFirst(n, rest);
  }

  /** A stream of valid messages is cut into exactly those messages, in order, and what follows
      them is left to be read next. */
  lemma {:induction false} FramesMessages(ns: seq<Node>, tail: seq<Byte>)
    requires AllWellFormed(ns)
    ensures Messages(RenderAll(ns) + tail) == RenderEach(ns) + Messages(tail)
    ensures Stop(RenderAll(ns) + tail) == Stop(tail)
  {
    if ns == [] {
      assert RenderAll(ns) + tail == tail;
      assert RenderEach(ns) + Messages(tail) == Messages(tail);
    } else {
      ConcatAssociative(Render(ns[0]), RenderAll(ns[1..]), tail);
      FramesFirst(ns[0], RenderAll(ns[1..]) + tail);
      FramesMessages(ns[1..], tail);
      RenderEachStep(ns);
      ConcatAssociative([Render(ns[0])], RenderEach(ns[1..]), Messages(tail));
    }
  }

  lemma SplitOff<T>(a: seq<T>, n: nat, b: seq<T>)
    requires n <= |a|
    ensures a + b == a[..n] + (a[n..] + b)
  {
  }

  lemma CutOff(message: seq<Byte>, n: nat, rest: seq<Byte>, all: seq<Byte>)
    requires n <= |message| && message[..n] + rest == all && rest == []
    requires forall i :: n <= i < |message| ==> message[i] == 0
    ensures |all| == n && message == all + Zeros(|message| - |all|)
  {
    PadEnd(message, n);
  }

  lemma PadEnd(s: seq<Byte>, n: nat)
    requires n <= |s| && forall i :: n <= i < |s| ==> s[i] == 0
    ensures s == s[..n] + Zeros(|s| - n)
  {
  }

  method CopyInto(buf: array<Byte>, at: nat, p: seq<Byte>)
    requires at + |p| <= buf.Length
    modifies buf
    ensures buf[..at + |p|] == old(buf[..at]) + p
    ensures forall i :: at + |p| <= i < buf.Length ==> buf[i] == old(buf[i])
  {
    forall i | 0 <= i < |p| {
      buf[at + i] := p[i];
    }
  }
}
