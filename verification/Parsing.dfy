/** parse, sample_socket/test_server.cpp (and its copy in sample_client/test_client.cpp), exactly as written. */
module Parsing {
  import opened Bytes
  import opened Rpc

  const SIZE_LIMIT := 0x1_0000_0000_0000_0000  // the values of size_t

  /** How parse ends: it returns a count, its loop never ends, or it leaves the buffer, below its start or in search
      of a NUL. */
  datatype ParseEnd = Rest(count: int) | Endless | Outside

  /** cursor is the offset of the last header looked at, or the one buffer_used ends at when parse returns. */
  datatype Drained = Drained(messages: seq<seq<byte>>, cursor: nat, end: ParseEnd)

  /** The text parse prints when GetMessageLength gives length: empty when Rpc::Parse refuses it. As a size_t, -1 is
      the largest length there is. */
  function Printed(mem: seq<byte>, at: nat, length: int): (b: seq<byte>)
    requires length >= -1 && at + HEADER_SIZE <= |mem| && TerminatedAt(mem, at + HEADER_SIZE)
  {
    var p := Parse(mem, at, if length < 0 then length + SIZE_LIMIT else length);
    if p.Parsed? then p.msg else []
  }

  /** What parse prints at a header: the C string eight bytes on, unless it is longer than the accepted length. A
      refused header's is printed always. */
  lemma PrintedText(mem: seq<byte>, at: nat, count: nat)
    requires at + count <= |mem| < SIZE_LIMIT && HEADER_SIZE <= count && TerminatedAt(mem, at + HEADER_SIZE)
    ensures var length, text := GetMessageLength(mem, at, count), ParseText(mem, at);
            Printed(mem, at, length) == if length >= 0 && |text| > length then [] else text
  {
    var length := GetMessageLength(mem, at, count);
    ParseVerdict(mem, at, if length < 0 then length + SIZE_LIMIT else length);
    hide StrLen, Parse;
  }

  /** The passes of parse's loop from offset at of the buffer mem on, with the bytes up to end counted. After a
      refused header, GetMessageLength's -1 moves it back by one byte. far is the farthest header seen: the loop has
      walked back from there over refused ones, so an accepted header that leads no farther closes a cycle. */
  function Walk(mem: seq<byte>, at: nat, far: nat, end: nat, printed: seq<seq<byte>>): (d: Drained)
    requires at <= far <= end <= |mem|
    ensures d.end.Rest? ==> d.cursor + d.end.count == end
    ensures !d.end.Rest? ==> d.cursor < end
    ensures printed <= d.messages
    decreases end - far, at
  {
    var length := GetMessageLength(mem, at, end - at);
    if length == 0 then Drained(printed, at, Rest(end - at))
    else if !TerminatedAt(mem, at + HEADER_SIZE) then Drained(printed, at, Outside)
    else
      var texts, next := printed + [Printed(mem, at, length)], at + length;
      if next < 0 then Drained(texts, at, Outside)
      else if next >= end then Drained(texts, next, Rest(end - next))
      else if length < 0 then Walk(mem, next, far, end, texts)
      else if next <= far then Drained(texts, at, Endless)
      else Walk(mem, next, next, end, texts)
  }

  /** parse(buffer_used, count_used), with buffer_used pointing to offset at of the buffer mem, continuing after
      the texts in printed. Nothing is lost or invented: the count returned, even when negative, is what was
      passed in less the bytes the cursor moved over, and texts are only added. */
  function Drain(mem: seq<byte>, at: nat, count: nat, printed: seq<seq<byte>>): (d: Drained)
    requires at + count <= |mem|
    ensures d.end.Rest? ==> d.cursor + d.end.count == at + count
    ensures !d.end.Rest? ==> d.cursor < at + count
    ensures printed <= d.messages
  {
    Walk(mem, at, at, at + count, printed)
  }

  /** The loop of parse. farthest is not in the source: it stands for the observation that the loop never ends. */
  method ParseBuffer(buffer: array<byte>, start: nat, count: nat) returns (printed: seq<seq<byte>>, end: ParseEnd)
    requires start + count <= buffer.Length
    ensures var d := Drain(buffer[..], start, count, []); printed == d.messages && end == d.end
  {
    hide U32At, StrLen, GetMessageLength, Printed;
    var bufferUsed: int, countUsed: int, farthest: nat := start, count, start;
    printed := [];
    ghost var mem := buffer[..];
    while true
      invariant 0 <= bufferUsed <= farthest && 0 <= countUsed && bufferUsed + countUsed == start + count
      invariant farthest <= start + count
      invariant Drain(mem, start, count, []) == Walk(mem, bufferUsed, farthest, start + count, printed)
      decreases start + count - farthest, bufferUsed
    {
      var length := GetMessageLength(buffer[..], bufferUsed, countUsed);
      if length == 0 {
        return printed, Rest(countUsed);
      }
      if !TerminatedAt(buffer[..], bufferUsed + HEADER_SIZE) {
        return printed, Outside;
      }
      printed := printed + [Printed(buffer[..], bufferUsed, length)];
      bufferUsed, countUsed := bufferUsed + length, countUsed - length;
      if bufferUsed < 0 {
        return printed, Outside;
      }
      if countUsed <= 0 {
        return printed, Rest(countUsed);
      }
      if length > 0 {
        if bufferUsed <= farthest {
          return printed, Endless;
        }
        farthest := bufferUsed;
      }
    }
  }

  // ----- frames

  lemma DrainFrame(mem: seq<byte>, at: nat, m: seq<byte>, count: nat, printed: seq<seq<byte>>)
    requires FrameAt(mem, at, m) && at + |m| + MESSAGE_SIZE + count <= |mem|
    ensures Drain(mem, at, |m| + MESSAGE_SIZE + count, printed) ==
            Drain(mem, at + |m| + MESSAGE_SIZE, count, printed + [m])
  {
    hide U32At, StrLen;
  }

  /** Whole frames at the front are delivered in order, and what follows them is drained as if it stood alone. */
  lemma {:induction false} DrainFrames(mem: seq<byte>, at: nat, ms: seq<seq<byte>>, count: nat, printed: seq<seq<byte>>)
    requires FramesAt(mem, at, ms) && at + WireLength(ms) + count <= |mem|
    ensures Drain(mem, at, WireLength(ms) + count, printed) == Drain(mem, at + WireLength(ms), count, printed + ms)
    decreases |ms|
  {
    hide FrameAt, GetMessageLength, Drain;
    if ms == [] {
      assert printed + ms == printed;
    } else {
      DrainFrame(mem, at, ms[0], WireLength(ms[1..]) + count, printed);
      DrainFrames(mem, at + |ms[0]| + MESSAGE_SIZE, ms[1..], count, printed + [ms[0]]);
      assert printed + ms == printed + [ms[0]] + ms[1..];
    }
  }

  /** A stream that stops t bytes into a frame, in front of the bytes after. */
  function CutStream(ms: seq<seq<byte>>, cut: seq<byte>, t: nat, after: seq<byte>): (mem: seq<byte>)
    requires AllSendable(ms) && Sendable(cut) && t < |Frame(cut)|
    ensures |mem| == |Stream(ms)| + t + |after|
  {
    Stream(ms) + (Frame(cut)[..t] + after)
  }

  /** The whole frames of such a stream are delivered; what remains is the drain of the cut frame. */
  lemma DrainToCut(ms: seq<seq<byte>>, cut: seq<byte>, t: nat, after: seq<byte>)
    requires AllSendable(ms) && Sendable(cut) && t < |Frame(cut)|
    ensures var n, mem := |Stream(ms)|, CutStream(ms, cut, t, after);
            Drain(mem, 0, n + t, []) == Drain(mem, n, t, ms)
  {
    hide Stream, FramesAt, Frame, Drain;
    var tail := Frame(cut)[..t] + after;
    StreamInFront(ms, tail);
    DrainFrames(CutStream(ms, cut, t, after), 0, ms, t, []);
    assert [] + ms == ms;
  }

  lemma CutHeader(pre: seq<byte>, cut: seq<byte>, t: nat, after: seq<byte>)
    requires Sendable(cut) && HEADER_SIZE <= t < |Frame(cut)|
    ensures var mem := pre + (Frame(cut)[..t] + after);
            U32At(mem, |pre|) == MAGIC && U32At(mem, |pre| + 4) == |Frame(cut)|
  {
    StoredFields(Frame(cut), 0, cut);
    var mem := pre + (Frame(cut)[..t] + after);
    assert forall i :: 0 <= i < t ==> mem[|pre| + i] == Frame(cut)[i];
  }

  /** The text of a cut frame runs to the first NUL behind it, or out of the buffer. */
  lemma CutText(pre: seq<byte>, cut: seq<byte>, t: nat, after: seq<byte>)
    requires Sendable(cut) && HEADER_SIZE <= t < |Frame(cut)|
    ensures var mem, at := pre + (Frame(cut)[..t] + after), |pre| + HEADER_SIZE;
            && (after == [] ==> !TerminatedAt(mem, at))
            && (after != [] && after[0] == 0 ==> TerminatedAt(mem, at) && CStrAt(mem, at) == cut[..t - HEADER_SIZE])
  {
    hide U32Le, StrLen;
    var mem, at, text := pre + (Frame(cut)[..t] + after), |pre| + HEADER_SIZE, cut[..t - HEADER_SIZE];
    assert mem[at..at + |text|] == Frame(cut)[HEADER_SIZE..t] == text;
    if after == [] {
      StrLenMeaning(mem, at);
      assert forall i :: at <= i < |mem| ==> mem[i] == text[i - at];
    } else if after[0] == 0 {
      CStrStored(mem, at, text);
    }
  }

  /** Cut inside the body, it is taken for a whole frame, and the part of its text that is there is printed if a NUL
      follows it; at the end of the buffer the search for a NUL leaves it. */
  lemma DrainCutBody(ms: seq<seq<byte>>, cut: seq<byte>, t: nat, after: seq<byte>)
    requires AllSendable(ms) && Sendable(cut) && HEADER_SIZE <= t < |Frame(cut)|
    ensures var n, mem := |Stream(ms)|, CutStream(ms, cut, t, after);
            var d := Drain(mem, n, t, ms);
            && ms <= d.messages
            && d.end == (if TerminatedAt(mem, n + HEADER_SIZE) then Rest(t - |Frame(cut)|) else Outside)
            && (after == [] ==> d == Drained(ms, n, Outside))
            && (after != [] && after[0] == 0 ==>
                  d == Drained(ms + [cut[..t - HEADER_SIZE]], n + |Frame(cut)|, Rest(t - |Frame(cut)|)))
  {
    hide U32At, StrLen, Stream, Frame;
    CutHeader(Stream(ms), cut, t, after);
    CutText(Stream(ms), cut, t, after);
  }

  /** When the stream stops inside a frame, parse delivers the whole frames and returns the length of the tail
      exactly if the cut lies inside that frame's header. A cut inside its body is taken for a whole frame. */
  lemma DrainExact(ms: seq<seq<byte>>, cut: seq<byte>, t: nat, after: seq<byte>)
    requires AllSendable(ms) && Sendable(cut) && t < |Frame(cut)|
    ensures var n, mem := |Stream(ms)|, CutStream(ms, cut, t, after);
            var d := Drain(mem, 0, n + t, []);
            && (d == Drained(ms, n, Rest(t)) <==> t < HEADER_SIZE)
            && (t >= HEADER_SIZE ==>
                  && ms <= d.messages
                  && d.end == (if TerminatedAt(mem, n + HEADER_SIZE) then Rest(t - |Frame(cut)|) else Outside)
                  && (after == [] ==> d == Drained(ms, n, Outside))
                  && (after != [] && after[0] == 0 ==>
                        d == Drained(ms + [cut[..t - HEADER_SIZE]], n + |Frame(cut)|, Rest(t - |Frame(cut)|))))
  {
    DrainToCut(ms, cut, t, after);
    if t < HEADER_SIZE {
      hide CutStream, StrLen, Stream, Frame;
      assert Drain(CutStream(ms, cut, t, after), |Stream(ms)|, t, ms) == Drained(ms, |Stream(ms)|, Rest(t));
    } else {
      DrainCutBody(ms, cut, t, after);
      hide Drain, CutStream, TerminatedAt, Stream, Frame;
    }
  }

  // ----- the passes of the loop, however many

  datatype Cursor = Cursor(at: int, count: int, printed: seq<seq<byte>>)

  datatype PassResult =
    | Again(next: Cursor)
    | Return(count: int, printed: seq<seq<byte>>)
    | OutOfBuffer(printed: seq<seq<byte>>)

  /** One pass of the do-while body over the buffer mem, with its loop test. */
  function Pass(mem: seq<byte>, c: Cursor): (p: PassResult)
    requires c.count > 0
    ensures p.Again? ==> p.next.count > 0
  {
    if c.count < HEADER_SIZE then Return(c.count, c.printed)
    else if c.at < 0 || c.at + HEADER_SIZE > |mem| then OutOfBuffer(c.printed)
    else
      var length := GetMessageLength(mem, c.at, c.count);
      if length == 0 then Return(c.count, c.printed)
      else if !TerminatedAt(mem, c.at + HEADER_SIZE) then OutOfBuffer(c.printed)
      else
        var texts := c.printed + [Printed(mem, c.at, length)];
        if c.count - length > 0 then Again(Cursor(c.at + length, c.count - length, texts))
        else Return(c.count - length, texts)
  }

  function Passes(mem: seq<byte>, c: Cursor, n: nat): (p: PassResult)
    requires c.count > 0
    ensures p.Again? ==> p.next.count > 0
    decreases n
  {
    if n == 0 then Again(c)
    else match Pass(mem, c)
      case Again(next) => Passes(mem, next, n - 1)
      case stop => stop
  }

  /** Some number of passes ends the loop with r. */
  ghost predicate Ends(mem: seq<byte>, c: Cursor, r: PassResult)
    requires c.count > 0
  {
    !r.Again? && exists n: nat :: Passes(mem, c, n) == r
  }

  /** Some number of passes makes parse return. */
  ghost predicate Returns(mem: seq<byte>, c: Cursor)
    requires c.count > 0
  {
    exists n: nat :: Passes(mem, c, n).Return?
  }

  /** No number of passes ends the loop. */
  ghost predicate NeverEnds(mem: seq<byte>, c: Cursor)
    requires c.count > 0
  {
    forall n: nat :: Passes(mem, c, n).Again?
  }

  lemma {:induction false} PassesAdd(mem: seq<byte>, c: Cursor, m: nat, n: nat)
    requires c.count > 0
    ensures Passes(mem, c, m + n) ==
            match Passes(mem, c, m)
            case Again(next) => Passes(mem, next, n)
            case stop => stop
    decreases m
  {
    hide Pass;
    if m > 0 {
      match Pass(mem, c) {
        case Again(next) => PassesAdd(mem, next, m - 1, n);
        case _ =>
      }
    }
  }

  lemma OnePass(mem: seq<byte>, c: Cursor)
    requires c.count > 0
    ensures Passes(mem, c, 1) == Pass(mem, c)
    ensures !Pass(mem, c).Again? ==> Ends(mem, c, Pass(mem, c))
  {
    hide Pass;
    if Pass(mem, c).Again? {
      assert Passes(mem, Pass(mem, c).next, 0) == Pass(mem, c);
    }
    assert Passes(mem, c, 1) == Pass(mem, c);
  }

  lemma EndsNext(mem: seq<byte>, c: Cursor, r: PassResult)
    requires c.count > 0 && Pass(mem, c).Again?
    ensures Ends(mem, Pass(mem, c).next, r) ==> Ends(mem, c, r)
    ensures NeverEnds(mem, Pass(mem, c).next) ==> NeverEnds(mem, c)
  {
    hide Pass;
    var next := Pass(mem, c).next;
    if Ends(mem, next, r) {
      var n: nat :| Passes(mem, next, n) == r;
      assert Passes(mem, c, n + 1) == r;
    }
    if NeverEnds(mem, next) {
      forall n: nat
        ensures Passes(mem, c, n).Again?
      {
        if n > 0 {
          assert Passes(mem, next, n - 1).Again?;
        }
      }
    }
  }

  /** The loop ends in one way only. */
  lemma EndsOnce(mem: seq<byte>, c: Cursor, r: PassResult)
    requires c.count > 0 && Ends(mem, c, r)
    ensures Returns(mem, c) <==> r.Return?
    ensures !NeverEnds(mem, c) && forall q :: Ends(mem, c, q) ==> q == r
  {
    hide Passes;
    var m: nat :| Passes(mem, c, m) == r;
    forall n: nat
      ensures Passes(mem, c, n).Again? || Passes(mem, c, n) == r
    {
      if n <= m {
        PassesAdd(mem, c, n, m - n);
      } else {
        PassesAdd(mem, c, m, n - m);
      }
    }
    assert !Passes(mem, c, m).Again?;
  }

  // ----- what parse does with any buffer

  /** The header at offset i, of bytes counted up to end, makes GetMessageLength return -1: another magic, or a
      length beyond the maximum. */
  predicate Refused(mem: seq<byte>, i: nat, end: nat) {
    i + HEADER_SIZE <= end <= |mem| && GetMessageLength(mem, i, end - i) == -1
  }

  /** The loop has walked back from far to at. */
  predicate WalkedBack(mem: seq<byte>, at: nat, far: nat, end: nat) {
    && at <= far < end <= |mem|
    && (at < far ==> far + HEADER_SIZE <= end && TerminatedAt(mem, far + HEADER_SIZE))
    && forall i :: at < i <= far ==> Refused(mem, i, end)
  }

  lemma TerminatedBefore(mem: seq<byte>, i: nat, j: nat)
    requires i <= j <= |mem| && TerminatedAt(mem, j)
    ensures TerminatedAt(mem, i)
  {
    StrLenMeaning(mem, i);
    StrLenMeaning(mem, j);
  }

  lemma BackPass(mem: seq<byte>, i: nat, far: nat, end: nat, printed: seq<seq<byte>>)
    requires i <= far && Refused(mem, i, end) && far + HEADER_SIZE <= |mem| && TerminatedAt(mem, far + HEADER_SIZE)
    ensures TerminatedAt(mem, i + HEADER_SIZE)
    ensures Pass(mem, Cursor(i, end - i, printed)) ==
            Again(Cursor(i - 1, end - i + 1, printed + [Printed(mem, i, -1)]))
  {
    TerminatedBefore(mem, i + HEADER_SIZE, far + HEADER_SIZE);
    hide StrLen, U32At, TerminatedAt, Printed;
  }

  lemma ForwardPass(mem: seq<byte>, p: nat, end: nat, printed: seq<seq<byte>>)
    requires p + HEADER_SIZE <= end <= |mem| && TerminatedAt(mem, p + HEADER_SIZE)
    requires 0 < GetMessageLength(mem, p, end - p) < end - p
    ensures var length := GetMessageLength(mem, p, end - p);
            Pass(mem, Cursor(p, end - p, printed)) ==
            Again(Cursor(p + length, end - p - length, printed + [Printed(mem, p, length)]))
  {
    hide StrLen, U32At, TerminatedAt, Printed;
  }

  /** Between an accepted header at p and far, to where it does not lead out, the loop goes round forever. */
  lemma {:induction false} Cycle(mem: seq<byte>, p: nat, far: nat, end: nat, r: nat, printed: seq<seq<byte>>, n: nat)
    requires p <= r <= far && p < far && WalkedBack(mem, p, far, end)
    requires 0 < GetMessageLength(mem, p, end - p) <= far - p
    ensures Passes(mem, Cursor(r, end - r, printed), n).Again?
    decreases n
  {
    hide StrLen, U32At, TerminatedAt, Pass, Printed, GetMessageLength;
    if n > 0 {
      if r == p {
        TerminatedBefore(mem, p + HEADER_SIZE, far + HEADER_SIZE);
        ForwardPass(mem, p, end, printed);
        var length := GetMessageLength(mem, p, end - p);
        Cycle(mem, p, far, end, p + length, printed + [Printed(mem, p, length)], n - 1);
      } else {
        BackPass(mem, r, far, end, printed);
        Cycle(mem, p, far, end, r - 1, printed + [Printed(mem, r, -1)], n - 1);
      }
    }
  }

  /** How the loop ends from c on, as d has it. */
  ghost predicate Follows(mem: seq<byte>, c: Cursor, d: Drained)
    requires c.count > 0
  {
    match d.end
    case Rest(count) => Ends(mem, c, Return(count, d.messages))
    case Outside => Ends(mem, c, OutOfBuffer(d.messages))
    case Endless => NeverEnds(mem, c)
  }

  lemma FollowsNext(mem: seq<byte>, c: Cursor, d: Drained)
    requires c.count > 0 && Pass(mem, c).Again? && Follows(mem, Pass(mem, c).next, d)
    ensures Follows(mem, c, d)
  {
    hide Ends, NeverEnds, Pass;
    EndsNext(mem, c, if d.end.Rest? then Return(d.end.count, d.messages) else OutOfBuffer(d.messages));
  }

  lemma AlwaysAgain(mem: seq<byte>, c: Cursor)
    requires c.count > 0 && forall n: nat :: Passes(mem, c, n).Again?
    ensures NeverEnds(mem, c)
  {
  }

  lemma {:induction false} WalkIsPasses(mem: seq<byte>, at: nat, far: nat, end: nat, printed: seq<seq<byte>>)
    requires at < end && WalkedBack(mem, at, far, end)
    ensures Follows(mem, Cursor(at, end - at, printed), Walk(mem, at, far, end, printed))
    decreases end - far, at
  {
    hide StrLen, U32At, TerminatedAt, Printed, Ends, NeverEnds;
    var c := Cursor(at, end - at, printed);
    var d := Walk(mem, at, far, end, printed);
    OnePass(mem, c);
    if Pass(mem, c).Again? {
      var next := Pass(mem, c).next;
      if next.at < 0 {
        assert Pass(mem, next) == OutOfBuffer(next.printed);
        OnePass(mem, next);
        FollowsNext(mem, c, d);
      } else if next.at < at {
        WalkIsPasses(mem, next.at, far, end, next.printed);
        FollowsNext(mem, c, d);
      } else if next.at <= far {
        forall n: nat
          ensures Passes(mem, c, n).Again?
        {
          Cycle(mem, at, far, end, at, printed, n);
        }
        AlwaysAgain(mem, c);
      } else {
        WalkIsPasses(mem, next.at, next.at, end, next.printed);
        FollowsNext(mem, c, d);
      }
    }
  }

  /** For every buffer: where Drain says that parse returns, some number of passes returns that count after those
      texts; where it says that parse leaves the buffer, some number of passes does; where it says neither, no
      number of passes ends the loop. */
  lemma DrainIsPasses(mem: seq<byte>, at: nat, count: nat, printed: seq<seq<byte>>)
    requires 0 < count && at + count <= |mem|
    ensures Follows(mem, Cursor(at, count, printed), Drain(mem, at, count, printed))
    ensures Returns(mem, Cursor(at, count, printed)) <==> Drain(mem, at, count, printed).end.Rest?
  {
    var c, d := Cursor(at, count, printed), Drain(mem, at, count, printed);
    hide Walk, Pass;
    WalkIsPasses(mem, at, at, at + count, printed);
    if d.end.Rest? {
      EndsOnce(mem, c, Return(d.end.count, d.messages));
    } else if d.end.Outside? {
      EndsOnce(mem, c, OutOfBuffer(d.messages));
    }
  }

  /** Conversely, how the passes end is what Drain says. */
  lemma DrainSays(mem: seq<byte>, at: nat, count: nat, printed: seq<seq<byte>>)
    requires 0 < count && at + count <= |mem|
    ensures var c, d := Cursor(at, count, printed), Drain(mem, at, count, printed);
            && (forall n, texts :: Ends(mem, c, Return(n, texts)) ==> d.end == Rest(n) && d.messages == texts)
            && (forall texts :: Ends(mem, c, OutOfBuffer(texts)) ==> d.end == Outside && d.messages == texts)
            && (NeverEnds(mem, c) ==> d.end == Endless)
  {
    var c, d := Cursor(at, count, printed), Drain(mem, at, count, printed);
    hide Drain, Ends, NeverEnds, Returns;
    DrainIsPasses(mem, at, count, printed);
    if d.end.Rest? {
      EndsOnce(mem, c, Return(d.end.count, d.messages));
    } else if d.end.Outside? {
      EndsOnce(mem, c, OutOfBuffer(d.messages));
    } else {
      forall r | Ends(mem, c, r)
        ensures false
      {
        EndsOnce(mem, c, r);
      }
    }
  }

  // ----- at a refused header

  /** A refused header at q, and none that is accepted on the way back to p. p is where an accepted header lies that
      leads to q, or -1 when there is no accepted one in front. */
  predicate Dead(mem: seq<byte>, p: int, q: nat, end: nat) {
    && q + HEADER_SIZE <= end <= |mem|
    && -1 <= p < q && (forall i :: p < i <= q ==> Refused(mem, i, end))
    && (p >= 0 ==> p + GetMessageLength(mem, p, end - p) == q)
  }

  /** The texts printed on the way back from q, j bytes long. */
  function Trail(mem: seq<byte>, q: nat, j: nat): (texts: seq<seq<byte>>)
    requires j <= q + 1 && q + HEADER_SIZE <= |mem| && TerminatedAt(mem, q + HEADER_SIZE)
    ensures |texts| == j
  {
    if j == 0 then []
    else
      var i := q - (j - 1);
      TerminatedBefore(mem, i + HEADER_SIZE, q + HEADER_SIZE);
      Trail(mem, q, j - 1) + [Printed(mem, i, -1)]
  }

  /** The loop walks back from q, byte by byte. */
  lemma {:induction false} WalksBack(mem: seq<byte>, p: int, q: nat, end: nat, printed: seq<seq<byte>>, j: nat)
    requires Dead(mem, p, q, end) && TerminatedAt(mem, q + HEADER_SIZE) && j <= q - p
    ensures Passes(mem, Cursor(q, end - q, printed), j) ==
            Again(Cursor(q - j, end - q + j, printed + Trail(mem, q, j)))
  {
    hide StrLen, GetMessageLength, Pass, TerminatedAt, Printed;
    if j == 0 {
      assert printed + [] == printed;
    } else {
      WalksBack(mem, p, q, end, printed, j - 1);
      var i, texts := q - (j - 1), printed + Trail(mem, q, j - 1);
      BackPass(mem, i, q, end, texts);
      OnePass(mem, Cursor(i, end - i, texts));
      PassesAdd(mem, Cursor(q, end - q, printed), j - 1, 1);
      assert texts + [Printed(mem, i, -1)] == printed + Trail(mem, q, j);
    }
  }

  /** With an accepted header in front that leads to q, the loop comes to it, prints its text again, and is back at
      q: it never ends. */
  lemma RefusedHeaderNeverReturns(mem: seq<byte>, p: nat, q: nat, end: nat, printed: seq<seq<byte>>)
    requires Dead(mem, p, q, end) && TerminatedAt(mem, q + HEADER_SIZE)
    ensures TerminatedAt(mem, p + HEADER_SIZE)
    ensures var c, texts := Cursor(q, end - q, printed), printed + Trail(mem, q, q - p);
            && Passes(mem, c, q - p) == Again(Cursor(p, end - p, texts))
            && Passes(mem, c, q - p + 1) == Again(Cursor(q, end - q, texts + [Printed(mem, p, q - p)]))
            && NeverEnds(mem, c)
  {
    hide StrLen, GetMessageLength, Passes, Pass, TerminatedAt, Trail, Printed;
    var c, texts := Cursor(q, end - q, printed), printed + Trail(mem, q, q - p);
    WalksBack(mem, p, q, end, printed, q - p);
    TerminatedBefore(mem, p + HEADER_SIZE, q + HEADER_SIZE);
    ForwardPass(mem, p, end, texts);
    OnePass(mem, Cursor(p, end - p, texts));
    PassesAdd(mem, c, q - p, 1);
    forall n: nat
      ensures Passes(mem, c, n).Again?
    {
      Cycle(mem, p, q, end, q, printed, n);
    }
  }

  /** With none in front it leaves the buffer at its lower end. */
  lemma RefusedFirstLeaves(mem: seq<byte>, q: nat, end: nat, printed: seq<seq<byte>>)
    requires Dead(mem, -1, q, end) && TerminatedAt(mem, q + HEADER_SIZE)
    ensures Passes(mem, Cursor(q, end - q, printed), q + 2) == OutOfBuffer(printed + Trail(mem, q, q + 1))
  {
    hide StrLen, GetMessageLength, Passes, Trail, TerminatedAt;
    WalksBack(mem, -1, q, end, printed, q + 1);
    OnePass(mem, Cursor(-1, end + 1, printed + Trail(mem, q, q + 1)));
    PassesAdd(mem, Cursor(q, end - q, printed), q + 1, 1);
  }

  // ----- when parse returns, by the guard of the header it is at

  /** The nearest accepted header in front of q, or -1. */
  function Nearest(mem: seq<byte>, q: nat, end: nat): (p: int)
    ensures -1 <= p < q
    ensures forall i :: p < i < q ==> Refused(mem, i, end)
    ensures p >= 0 ==> !Refused(mem, p, end)
  {
    if q == 0 then -1 else if Refused(mem, q - 1, end) then Nearest(mem, q - 1, end) else q - 1
  }

  /** From a refused header at q the walk back gets out: there is an accepted header in front, and its length is 0,
      or covers what is counted, or leads past q to where parse returns. */
  predicate Escapes(mem: seq<byte>, q: nat, end: nat)
    requires q + HEADER_SIZE <= end <= |mem|
  {
    var p := Nearest(mem, q, end);
    p >= 0 &&
    var next := p + GetMessageLength(mem, p, end - p);
    next == p || next >= end || (next > q && Drain(mem, next, end - next, []).end.Rest?)
  }

  /** What lets parse return from q: too few bytes for a header, a length of 0, or a NUL to end the string and a
      header that covers what is counted, or leads to where parse returns, or is refused and escaped from. */
  predicate Passable(mem: seq<byte>, q: nat, end: nat)
    requires q <= end <= |mem|
  {
    end - q < HEADER_SIZE ||
    var length := GetMessageLength(mem, q, end - q);
    length == 0 ||
    (TerminatedAt(mem, q + HEADER_SIZE) &&
     if length > 0 then q + length >= end || Drain(mem, q + length, end - q - length, []).end.Rest?
     else Escapes(mem, q, end))
  }

  /** Texts printed before do not change how parse ends. */
  lemma {:induction false} EndIgnoresTexts(mem: seq<byte>, at: nat, far: nat, end: nat, x: seq<seq<byte>>,
                                           y: seq<seq<byte>>)
    requires at <= far <= end <= |mem|
    ensures Walk(mem, at, far, end, x).end == Walk(mem, at, far, end, y).end
    decreases end - far, at
  {
    hide U32At, StrLen, TerminatedAt, Printed;
    var length := GetMessageLength(mem, at, end - at);
    if length != 0 && TerminatedAt(mem, at + HEADER_SIZE) {
      var t, next := [Printed(mem, at, length)], at + length;
      if length < 0 && at > 0 {
        EndIgnoresTexts(mem, next, far, end, x + t, y + t);
      } else if far < next < end {
        EndIgnoresTexts(mem, next, next, end, x + t, y + t);
      }
    }
  }

  /** The walk back from far ends as it does at the accepted header p. */
  lemma {:induction false} WalkBackTo(mem: seq<byte>, p: int, at: nat, far: nat, end: nat, printed: seq<seq<byte>>)
    requires -1 <= p <= at <= far && far + HEADER_SIZE <= end <= |mem| && TerminatedAt(mem, far + HEADER_SIZE)
    requires forall i :: p < i <= at ==> Refused(mem, i, end)
    ensures Walk(mem, at, far, end, printed).end ==
            if p < 0 then Outside else Walk(mem, p, far, end, []).end
    decreases at
  {
    hide U32At, StrLen, TerminatedAt, Printed;
    if p == at {
      EndIgnoresTexts(mem, at, far, end, printed, []);
    } else {
      TerminatedBefore(mem, at + HEADER_SIZE, far + HEADER_SIZE);
      assert Refused(mem, at, end);
      if at > 0 {
        WalkBackTo(mem, p, at - 1, far, end, printed + [Printed(mem, at, -1)]);
      }
    }
  }

  lemma WalkOn(mem: seq<byte>, p: nat, far: nat, end: nat)
    requires p <= far && p + HEADER_SIZE <= end <= |mem| && far <= end && TerminatedAt(mem, p + HEADER_SIZE)
    requires !Refused(mem, p, end)
    ensures var next := p + GetMessageLength(mem, p, end - p);
            next >= p &&
            (Walk(mem, p, far, end, []).end.Rest? <==>
             next == p || next >= end || (next > far && Drain(mem, next, end - next, []).end.Rest?))
  {
    hide U32At, StrLen, TerminatedAt, Printed;
    var next := p + GetMessageLength(mem, p, end - p);
    if far < next < end {
      EndIgnoresTexts(mem, next, next, end, [] + [Printed(mem, p, next - p)], []);
    }
  }

  lemma RefusedGuard(mem: seq<byte>, q: nat, end: nat, printed: seq<seq<byte>>)
    requires Refused(mem, q, end)
    ensures Walk(mem, q, q, end, printed).end.Rest? <==> TerminatedAt(mem, q + HEADER_SIZE) && Escapes(mem, q, end)
  {
    hide U32At, StrLen, Printed, GetMessageLength, TerminatedAt, Drain;
    if TerminatedAt(mem, q + HEADER_SIZE) {
      var p := Nearest(mem, q, end);
      assert forall i :: p < i <= q ==> Refused(mem, i, end);
      WalkBackTo(mem, p, q, q, end, printed);
      hide Walk, Nearest;
      if p >= 0 {
        TerminatedBefore(mem, p + HEADER_SIZE, q + HEADER_SIZE);
        WalkOn(mem, p, q, end);
      }
    }
  }

  /** For every buffer: parse, at any offset q of it, returns if and only if it is passable there. */
  lemma ReturnsIff(mem: seq<byte>, q: nat, end: nat, printed: seq<seq<byte>>)
    requires q < end <= |mem|
    ensures Returns(mem, Cursor(q, end - q, printed)) <==> Passable(mem, q, end)
    ensures Drain(mem, q, end - q, printed).end.Rest? <==> Passable(mem, q, end)
  {
    hide U32At, StrLen, TerminatedAt, Printed, Escapes, Returns, Follows;
    DrainIsPasses(mem, q, end - q, printed);
    if Refused(mem, q, end) {
      RefusedGuard(mem, q, end, printed);
      hide Walk;
    } else if end - q >= HEADER_SIZE && TerminatedAt(mem, q + HEADER_SIZE) {
      WalkOn(mem, q, q, end);
      EndIgnoresTexts(mem, q, q, end, printed, []);
      assert GetMessageLength(mem, q, end - q) >= 0;
      hide Walk, GetMessageLength;
    }
  }

  // ----- when parse returns from a stream

  lemma MagicBytesAt(mem: seq<byte>, i: nat)
    requires i + 4 <= |mem| && U32At(mem, i) == MAGIC
    ensures mem[i] == 0x22 && mem[i + 1] == 0x33 && mem[i + 2] == 0x44 && mem[i + 3] == 0x55
  {
  }

  /** The text has no magic among its last seven bytes. */
  predicate NoLateMagic(m: seq<byte>) {
    forall k :: 0 <= k && k + 4 <= |m| < k + 8 ==> U32At(m, k) != MAGIC
  }

  lemma SmallLength(mem: seq<byte>, i: nat)
    requires i + 4 <= |mem| && U32At(mem, i) <= MAXIMUM_PACKET_LENGTH
    ensures mem[i + 3] == 0
  {
  }

  lemma LargeLength(mem: seq<byte>, i: nat)
    requires i + 4 <= |mem| && forall k :: i <= k < i + 4 ==> mem[k] != 0
    ensures U32At(mem, i) > MAXIMUM_PACKET_LENGTH
  {
    assert mem[i + 3] != 0;
  }

  lemma InText(mem: seq<byte>, p: nat, m: seq<byte>)
    requires FrameAt(mem, p, m)
    ensures forall k :: 0 <= k < |m| ==> mem[p + HEADER_SIZE + k] == m[k]
    ensures mem[p + HEADER_SIZE + |m|] == 0
  {
    hide U32At, StrLen;
    var at := p + HEADER_SIZE;
    StrLenMeaning(mem, at);
    assert StrLen(mem, at) == |mem[at..at + StrLen(mem, at)]| == |m|;
    forall k | 0 <= k < |m|
      ensures mem[at + k] == m[k]
    {
      assert mem[at..at + StrLen(mem, at)][k] == m[k];
    }
  }

  /** Inside a frame no header is accepted: its own fields are no magic, and a magic in its text is followed by four
      text bytes, which make too large a length. */
  lemma InsideRefused(mem: seq<byte>, p: nat, m: seq<byte>, i: nat, end: nat)
    requires FrameAt(mem, p, m) && Sendable(m) && NoLateMagic(m) && p < i < p + |m| + MESSAGE_SIZE
    requires p + |m| + MESSAGE_SIZE + HEADER_SIZE <= end <= |mem|
    ensures Refused(mem, i, end)
  {
    hide StrLen, U32At;
    if U32At(mem, i) == MAGIC {
      MagicBytesAt(mem, i);
      MagicBytesAt(mem, p);
      SmallLength(mem, p + 4);
      InText(mem, p, m);
      var k := i - p - HEADER_SIZE;
      assert 0 <= k && k + 4 <= |m|;
      if k + 8 <= |m| {
        LargeLength(mem, i + 4);
      } else {
        SameWord(mem, i, m, k);
        assert false;
      }
    }
  }

  lemma DeadBehind(mem: seq<byte>, p: nat, m: seq<byte>, end: nat)
    requires FrameAt(mem, p, m) && Sendable(m) && NoLateMagic(m)
    requires p + |m| + MESSAGE_SIZE <= end <= |mem|
    ensures var q := p + |m| + MESSAGE_SIZE; Refused(mem, q, end) ==> Dead(mem, p, q, end)
  {
    hide U32At, StrLen;
    var q := p + |m| + MESSAGE_SIZE;
    if Refused(mem, q, end) {
      assert q + HEADER_SIZE <= end && p + GetMessageLength(mem, p, end - p) == q;
      hide Refused;
      forall i | p < i < q
        ensures Refused(mem, i, end)
      {
        InsideRefused(mem, p, m, i, end);
      }
    }
  }

  lemma DeadNeverEscapes(mem: seq<byte>, p: int, q: nat, end: nat)
    requires Dead(mem, p, q, end)
    ensures !Escapes(mem, q, end)
  {
    hide Drain;
    var n := Nearest(mem, q, end);
    if p >= 0 {
      assert !Refused(mem, p, end);
    }
    assert n == p;
  }

  lemma NoWire()
    ensures WireLength([]) == 0
  {
  }

  lemma FrontSendable(ms: seq<seq<byte>>)
    requires AllSendable(ms) && ms != []
    ensures Sendable(ms[|ms| - 1]) && AllSendable(ms[..|ms| - 1]) && AllSendable([ms[|ms| - 1]]) && AllSendable([])
  {
  }

  lemma StreamOfOne(m: seq<byte>)
    requires Sendable(m) && AllSendable([m])
    ensures Stream([m]) == Frame(m)
  {
    hide Frame, Sendable;
    var one := [m];
    assert one[1..] == [] && one[0] == m;
    StreamCons(one);
    assert Frame(m) + [] == Frame(m);
  }

  lemma LastFrame(ms: seq<seq<byte>>, rest: seq<byte>)
    requires AllSendable(ms) && ms != []
    ensures var m := ms[|ms| - 1];
            var p := WireLength(ms) - (|m| + MESSAGE_SIZE);
            p >= 0 && Sendable(m) && FrameAt(Stream(ms) + rest, p, m)
  {
    var front, m := ms[..|ms| - 1], ms[|ms| - 1];
    FrontSendable(ms);
    hide *;
    assert ms == front + [m];
    StreamOfConcat(front, [m]);
    StreamOfOne(m);
    FrameIsFrameAt(Stream(front), m, rest);
  }

  lemma NothingInFront(mem: seq<byte>, end: nat)
    ensures Refused(mem, 0, end) ==> Dead(mem, -1, 0, end)
  {
  }

  lemma RefusedTail(ms: seq<seq<byte>>, tail: seq<byte>, after: seq<byte>)
    requires AllSendable(ms) && (ms != [] ==> NoLateMagic(ms[|ms| - 1]))
    requires Refused(Stream(ms) + (tail + after), WireLength(ms), WireLength(ms) + |tail|)
    ensures !Escapes(Stream(ms) + (tail + after), WireLength(ms), WireLength(ms) + |tail|)
  {
    hide *;
    var mem, q := Stream(ms) + (tail + after), WireLength(ms);
    var end := q + |tail|;
    NoWire();
    if ms == [] {
      NothingInFront(mem, end);
      DeadNeverEscapes(mem, -1, q, end);
    } else {
      var m := ms[|ms| - 1];
      LastFrame(ms, tail + after);
      DeadBehind(mem, q - (|m| + MESSAGE_SIZE), m, end);
      DeadNeverEscapes(mem, q - (|m| + MESSAGE_SIZE), q, end);
    }
  }

  lemma PassableAtEnd(mem: seq<byte>, end: nat)
    requires end <= |mem|
    ensures Passable(mem, end, end)
    ensures forall printed :: Drain(mem, end, 0, printed).end == Rest(0)
  {
  }

  lemma NotPassable(mem: seq<byte>, q: nat, end: nat)
    requires Refused(mem, q, end) && !Escapes(mem, q, end)
    ensures !Passable(mem, q, end)
  {
  }

  /** On any stream followed by any bytes tail, parse returns if and only if it is passable at the tail. Where the
      tail's header is refused and no late magic ends the last text, it is not, so parse never returns. */
  lemma ParseReturnsIff(ms: seq<seq<byte>>, tail: seq<byte>, after: seq<byte>)
    requires AllSendable(ms) && WireLength(ms) + |tail| > 0
    ensures var mem, q := Stream(ms) + (tail + after), WireLength(ms);
            && (Returns(mem, Cursor(0, q + |tail|, [])) <==> Passable(mem, q, q + |tail|))
            && (Refused(mem, q, q + |tail|) && (ms != [] ==> NoLateMagic(ms[|ms| - 1])) ==>
                  !Passable(mem, q, q + |tail|))
  {
    hide *;
    var mem, q := Stream(ms) + (tail + after), WireLength(ms);
    var end := q + |tail|;
    StreamInFront(ms, tail + after);
    DrainFrames(mem, 0, ms, |tail|, []);
    DrainIsPasses(mem, 0, end, []);
    assert [] + ms == ms;
    PassableAtEnd(mem, end);
    if q < end {
      ReturnsIff(mem, q, end, ms);
    }
    if Refused(mem, q, end) && (ms != [] ==> NoLateMagic(ms[|ms| - 1])) {
      RefusedTail(ms, tail, after);
      NotPassable(mem, q, end);
    }
  }

  lemma WordOf(mem: seq<byte>, i: nat, a: byte, b: byte, c: byte, d: byte)
    requires i + 4 <= |mem| && mem[i] == a && mem[i + 1] == b && mem[i + 2] == c && mem[i + 3] == d
    ensures U32At(mem, i) == a as nat + 256 * b as nat + 65536 * c as nat + 16777216 * d as nat
  {
  }

  /** A late magic does let parse return: the text of the frame in this buffer is the magic, the header behind it is
      refused, and the walk back finds a header of length 256 at the text, so -243 is returned. */
  lemma LateMagicReturns(mem: seq<byte>)
    requires mem == ([0x22, 0x33, 0x44, 0x55] + [13, 0, 0, 0]) + ([0x22, 0x33, 0x44, 0x55] + [0])
                    + ([1, 0, 0, 0, 0, 0, 0, 0] + [0])
    ensures FrameAt(mem, 0, [0x22, 0x33, 0x44, 0x55])
    ensures Refused(mem, 13, 21) && Drain(mem, 0, 21, []).end == Rest(-243)
  {
    hide U32At, StrLen, Printed;
    WordOf(mem, 0, 0x22, 0x33, 0x44, 0x55);
    WordOf(mem, 4, 13, 0, 0, 0);
    WordOf(mem, 8, 0x22, 0x33, 0x44, 0x55);
    WordOf(mem, 12, 0, 1, 0, 0);
    forall i | 8 < i <= 13
      ensures Refused(mem, i, 21)
    {
      if U32At(mem, i) == MAGIC {
        MagicBytesAt(mem, i);
      }
    }
    CStrStored(mem, 8, [0x22, 0x33, 0x44, 0x55]);
    CStrStored(mem, 16, []);
    CStrStored(mem, 21, []);
    hide TerminatedAt;
    var texts := [] + [Printed(mem, 0, 13)];
    assert Drain(mem, 0, 21, []) == Walk(mem, 13, 13, 21, texts);
    WalkBackTo(mem, 8, 13, 13, 21, texts);
  }
}
