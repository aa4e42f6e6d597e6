/** The reassembler read_string evidently intends: it keeps the bytes of an incomplete frame, moves them to the
    front of the buffer, and reads on until end of file, through a readn that repeats interrupted calls. This is not
    the code as written; StringIo is. */
module Reassembler {
  import opened Bytes
  import opened Rpc
  import opened SafeIo
  import opened Parsing
  import opened StringIo
  import opened Delivery

  /** The length of the complete frame at offset at, or 0 when the bytes so far do not hold one. */
  function FrameLength(b: seq<byte>, at: nat): (n: nat)
    requires at <= |b|
    ensures at + n <= |b|
    ensures n == 0 || n >= MESSAGE_SIZE
  {
    if |b| - at < HEADER_SIZE then 0
    else
      var n := GetMessageLength(b, at, |b| - at);
      if n < MESSAGE_SIZE || at + n > |b| then 0 else n
  }

  /** The text of the frame of n bytes at offset at; the search for its NUL stays inside the frame. */
  function Text(b: seq<byte>, at: nat, n: nat): (r: seq<byte>)
    requires at + n <= |b| && n >= MESSAGE_SIZE
  {
    b[at + HEADER_SIZE..at + HEADER_SIZE + Min(StrLen(b, at + HEADER_SIZE), n - HEADER_SIZE)]
  }

  datatype Extracted = Extracted(messages: seq<seq<byte>>, stop: nat)

  /** All complete frames from offset at on; stop is where the incomplete rest begins. */
  function Extract(b: seq<byte>, at: nat, messages: seq<seq<byte>>): (e: Extracted)
    requires at <= |b|
    ensures at <= e.stop <= |b|
    ensures FrameLength(b, e.stop) == 0
    decreases |b| - at
  {
    var n := FrameLength(b, at);
    if n == 0 then Extracted(messages, at)
    else Extract(b, at + n, messages + [Text(b, at, n)])
  }

  // ----- chunking independence

  lemma TextLocal(c: seq<byte>, i: nat, b: seq<byte>, at: nat, n: nat)
    requires n >= MESSAGE_SIZE && i + n <= |c| && at + n <= |b|
    requires c[i..i + n] == b[at..at + n]
    ensures Text(c, i, n) == Text(b, at, n)
  {
    hide StrLen;
    SubSlice(c, i, b[at..at + n], HEADER_SIZE, n);
    SubSlice(b, at, b[at..at + n], HEADER_SIZE, n);
    var k := Min(StrLen(b, at + HEADER_SIZE), n - HEADER_SIZE);
    SubSlice(c, i, b[at..at + n], HEADER_SIZE, HEADER_SIZE + k);
    SubSlice(b, at, b[at..at + n], HEADER_SIZE, HEADER_SIZE + k);
    StrLenLocal(c, i + HEADER_SIZE, b, at + HEADER_SIZE, n - HEADER_SIZE);
  }

  /** A complete frame is not affected by the bytes around it. */
  lemma FrameLocal(pre: seq<byte>, b: seq<byte>, post: seq<byte>, at: nat)
    requires at <= |b| && FrameLength(b, at) != 0
    ensures var n := FrameLength(b, at);
            FrameLength(pre + b + post, |pre| + at) == n && Text(pre + b + post, |pre| + at, n) == Text(b, at, n)
  {
    var n, c, i := FrameLength(b, at), pre + b + post, |pre| + at;
    assert c[i..i + n] == b[at..at + n];
    SubSlice(c, i, b[at..at + n], 0, 4);
    SubSlice(c, i, b[at..at + n], 4, 8);
    SameWord(c, i, b, at);
    SameWord(c, i + 4, b, at + 4);
    hide U32At, StrLen, Text;
    TextLocal(c, i, b, at, n);
  }

  /** Bytes in front shift an extraction, and bytes behind continue it where it stopped. */
  lemma {:induction false} ExtractLocal(pre: seq<byte>, b: seq<byte>, post: seq<byte>, at: nat,
                                        messages: seq<seq<byte>>)
    requires at <= |b|
    ensures var e, c := Extract(b, at, messages), pre + b + post;
            Extract(c, |pre| + at, messages) == Extract(c, |pre| + e.stop, e.messages)
    decreases |b| - at
  {
    hide FrameLength, Text;
    var n := FrameLength(b, at);
    if n != 0 {
      FrameLocal(pre, b, post, at);
      ExtractLocal(pre, b, post, at + n, messages + [Text(b, at, n)]);
    }
  }

  lemma FrameShift(pre: seq<byte>, b: seq<byte>, at: nat)
    requires at <= |b|
    ensures FrameLength(pre + b, |pre| + at) == FrameLength(b, at)
  {
    var c, i := pre + b, |pre| + at;
    if |b| - at >= HEADER_SIZE {
      assert forall k :: at <= k < |b| ==> c[|pre| + k] == b[k];
      assert U32At(c, i) == U32At(b, at) && U32At(c, i + 4) == U32At(b, at + 4);
    }
  }

  lemma ExtractNone(b: seq<byte>, at: nat, messages: seq<seq<byte>>)
    requires at <= |b| && FrameLength(b, at) == 0
    ensures Extract(b, at, messages) == Extracted(messages, at)
  {
    hide FrameLength;
  }

  lemma {:induction false} ExtractShift(pre: seq<byte>, b: seq<byte>, at: nat, messages: seq<seq<byte>>)
    requires at <= |b|
    ensures var e := Extract(b, at, messages);
            Extract(pre + b, |pre| + at, messages) == Extracted(e.messages, |pre| + e.stop)
  {
    hide Extract, FrameLength;
    var e := Extract(b, at, messages);
    ExtractLocal(pre, b, [], at, messages);
    assert pre + b + [] == pre + b;
    FrameShift(pre, b, e.stop);
    ExtractNone(pre + b, |pre| + e.stop, e.messages);
  }

  datatype State = State(carry: seq<byte>, messages: seq<seq<byte>>)

  function Feed(st: State, chunk: seq<byte>): (t: State) {
    var b := st.carry + chunk;
    var e := Extract(b, 0, st.messages);
    State(b[e.stop..], e.messages)
  }

  function FeedAll(st: State, chunks: seq<seq<byte>>): (t: State)
    decreases |chunks|
  {
    if chunks == [] then st else FeedAll(Feed(st, chunks[0]), chunks[1..])
  }

  function Concat(chunks: seq<seq<byte>>): (b: seq<byte>) {
    if chunks == [] then [] else chunks[0] + Concat(chunks[1..])
  }

  lemma FeedTwice(st: State, chunk: seq<byte>, rest: seq<byte>)
    ensures Feed(Feed(st, chunk), rest) == Feed(st, chunk + rest)
    ensures FrameLength(Feed(st, chunk).carry, 0) == 0
  {
    hide FrameLength, Extract;
    var b, all := st.carry + chunk, st.carry + (chunk + rest);
    var e := Extract(b, 0, st.messages);
    var c := b[e.stop..] + rest;
    assert [] + b + rest == all && b[..e.stop] + c == all && b[..e.stop] + b[e.stop..] == b;
    FrameShift(b[..e.stop], b[e.stop..], 0);
    ExtractLocal([], b, rest, 0, st.messages);
    ExtractShift(b[..e.stop], c, 0, e.messages);
    var stop := Extract(c, 0, e.messages).stop;
    assert all[e.stop + stop..] == c[stop..];
  }

  /** However any bytes at all are cut into chunks, feeding the chunks ends in the state that feeding them in one
      piece ends in. */
  lemma {:induction false} ChunkingIndependence(st: State, chunks: seq<seq<byte>>)
    requires FrameLength(st.carry, 0) == 0
    ensures FeedAll(st, chunks) == Feed(st, Concat(chunks))
    decreases |chunks|
  {
    hide FrameLength;
    if chunks == [] {
      assert st.carry + [] == st.carry;
      assert Extract(st.carry, 0, st.messages) == Extracted(st.messages, 0);
      assert st.carry[0..] == st.carry;
    } else {
      FeedTwice(st, chunks[0], Concat(chunks[1..]));
      ChunkingIndependence(Feed(st, chunks[0]), chunks[1..]);
    }
  }

  // ----- streams of frames

  lemma FrameExtracted(pre: seq<byte>, m: seq<byte>, post: seq<byte>)
    requires Sendable(m)
    ensures var b := pre + Frame(m) + post;
            FrameLength(b, |pre|) == |Frame(m)| && Text(b, |pre|, |Frame(m)|) == m
  {
    hide Frame, StrLen, U32At;
    FrameIsFrameAt(pre, m, post);
  }

  /** A proper prefix of a frame holds no complete frame. */
  lemma CutFrameWaits(pre: seq<byte>, m: seq<byte>, t: nat)
    requires Sendable(m) && t < |Frame(m)|
    ensures FrameLength(pre + Frame(m)[..t], |pre|) == 0
  {
    hide Frame, U32At;
    var b := pre + Frame(m)[..t];
    if t >= HEADER_SIZE {
      CutHeader(pre, m, t, []);
      assert pre + (Frame(m)[..t] + []) == b;
    }
  }

  lemma EmptyWaits(b: seq<byte>)
    ensures FrameLength(b, |b|) == 0
  {
  }

  lemma ExtractOne(pre: seq<byte>, m: seq<byte>, post: seq<byte>, messages: seq<seq<byte>>)
    requires Sendable(m)
    ensures var b := pre + Frame(m) + post;
            Extract(b, |pre|, messages) == Extract(b, |pre + Frame(m)|, messages + [m])
  {
    FrameExtracted(pre, m, post);
    hide FrameLength, Frame, Text;
  }

  /** Whole frames are extracted one by one, whatever surrounds them. */
  lemma {:induction false} ExtractFrames(pre: seq<byte>, ms: seq<seq<byte>>, post: seq<byte>,
                                         messages: seq<seq<byte>>)
    requires AllSendable(ms)
    ensures var b := pre + Stream(ms) + post;
            Extract(b, |pre|, messages) == Extract(b, |pre| + |Stream(ms)|, messages + ms)
    decreases |ms|
  {
    hide Frame, Extract, Sendable, WireLength;
    if ms == [] {
      assert messages + ms == messages && Stream(ms) == [];
    } else {
      var f, rest := Frame(ms[0]), Stream(ms[1..]);
      StreamCons(ms);
      hide Stream;
      assert pre + Stream(ms) + post == pre + f + (rest + post) == (pre + f) + rest + post;
      ExtractOne(pre, ms[0], rest + post, messages);
      ExtractFrames(pre + f, ms[1..], post, messages + [ms[0]]);
      assert messages + [ms[0]] + ms[1..] == messages + ms;
    }
  }

  /** From any number of bytes of a stream, exactly the whole frames are extracted, and the carried rest is the
      proper prefix of the next frame, or nothing. */
  lemma ExtractPrefix(pre: seq<byte>, ms: seq<seq<byte>>, n: nat, messages: seq<seq<byte>>)
    requires AllSendable(ms) && n <= WireLength(ms)
    ensures var k := WholeFrames(ms, n);
            && WireLength(ms[..k]) <= n && (k < |ms| ==> n < WireLength(ms[..k]) + |Frame(ms[k])|)
            && Extract(pre + Stream(ms)[..n], |pre|, messages)
               == Extracted(messages + ms[..k], |pre| + WireLength(ms[..k]))
  {
    hide Frame, Stream, WholeFrames, FrameLength, Extract, WireLength;
    StreamCut(ms, n);
    var k := WholeFrames(ms, n);
    assert AllSendable(ms[..k]) && (k < |ms| ==> Sendable(ms[k]));
    hide Sendable, AllSendable;
    var b, front := pre + Stream(ms)[..n], Stream(ms[..k]);
    var cut := if k < |ms| then Frame(ms[k])[..n - |front|] else [];
    assert ms[..|ms|] == ms;
    assert b == pre + front + cut;
    ExtractFrames(pre, ms[..k], cut, messages);
    if k < |ms| {
      CutFrameWaits(pre + front, ms[k], n - |front|);
    } else {
      EmptyWaits(b);
    }
    ExtractNone(b, |pre + front|, messages + ms[..k]);
  }

  /** Any split of the first n bytes of a stream delivers its whole frames, and carries the part of the next frame
      that has arrived. */
  lemma ChunkedStream(ms: seq<seq<byte>>, n: nat, chunks: seq<seq<byte>>)
    requires AllSendable(ms) && n <= WireLength(ms) && Concat(chunks) == Stream(ms)[..n]
    ensures var k := WholeFrames(ms, n);
            var st := FeedAll(State([], []), chunks);
            && WireLength(ms[..k]) <= n
            && st.messages == ms[..k] && st.carry == Stream(ms)[WireLength(ms[..k])..n]
            && (k < |ms| ==> |st.carry| < |Frame(ms[k])| && st.carry <= Frame(ms[k]))
            && (k == |ms| ==> st.carry == [])
  {
    hide FrameLength, Extract, Stream, WholeFrames, FeedAll, Concat, Frame, Sendable, WireLength;
    var k := WholeFrames(ms, n);
    var b := Stream(ms)[..n];
    EmptyWaits([]);
    ChunkingIndependence(State([], []), chunks);
    ExtractPrefix([], ms, n, []);
    assert [] + b == b && [] + ms[..k] == ms[..k];
    StreamCut(ms, n);
    assert ms[..|ms|] == ms;
  }

  // ----- the bounded buffer

  datatype Received = Received(messages: seq<seq<byte>>, verdict: Verdict)

  /** Rounds of read, extract and carry over, until readn returns 0. */
  function Receive(carry: seq<byte>, incoming: seq<byte>, schedule: seq<Outcome>, messages: seq<seq<byte>>)
    : (r: Received)
    requires |carry| <= BUFFER_LENGTH
    decreases |incoming|
  {
    var t := ReadRun(schedule, BUFFER_LENGTH - |carry|, |incoming|, true);
    if t.verdict != Finished || t.moved == 0 then Received(messages, t.verdict)
    else
      var st := Feed(State(carry, messages), incoming[..t.moved]);
      Receive(st.carry, incoming[t.moved..], t.rest, st.messages)
  }

  /** The messages before the first whose frame exceeds the buffer. */
  function Fitting(ms: seq<seq<byte>>): (ks: seq<seq<byte>>) {
    if ms == [] || |ms[0]| + MESSAGE_SIZE > BUFFER_LENGTH then [] else [ms[0]] + Fitting(ms[1..])
  }

  lemma {:induction false} FittingConcat(ms: seq<seq<byte>>, k: nat)
    requires k <= |ms| && WireLength(ms[..k]) <= BUFFER_LENGTH
    ensures Fitting(ms) == ms[..k] + Fitting(ms[k..])
  {
    if k > 0 {
      assert ms[..k] == [ms[0]] + ms[1..][..k - 1];
      FittingConcat(ms[1..], k - 1);
      assert ms[1..][k - 1..] == ms[k..];
      assert ms[..k] + Fitting(ms[k..]) == [ms[0]] + (ms[1..][..k - 1] + Fitting(ms[k..]));
    }
  }

  lemma {:induction false} WholeFramesConcat(ms: seq<seq<byte>>, k: nat, n: nat)
    requires k <= |ms| && WireLength(ms[..k]) <= n
    ensures WholeFrames(ms, n) == k + WholeFrames(ms[k..], n - WireLength(ms[..k]))
  {
    if k > 0 {
      assert ms[..k][1..] == ms[1..][..k - 1];
      WholeFramesConcat(ms[1..], k - 1, n - |ms[0]| - MESSAGE_SIZE);
      assert ms[1..][k - 1..] == ms[k..];
    } else {
      assert ms[0..] == ms;
    }
  }

  lemma NoneWhole(carry: seq<byte>, ms: seq<seq<byte>>)
    requires AllSendable(ms) && carry <= Stream(ms) && FrameLength(carry, 0) == 0
    ensures WholeFrames(ms, |carry|) == 0
  {
    hide FrameLength, Stream, AllSendable, WholeFrames, WireLength, Frame;
    var k := WholeFrames(ms, |carry|);
    assert carry == [] + Stream(ms)[..|carry|];
    ExtractPrefix([], ms, |carry|, []);
    assert Extract(carry, 0, []) == Extracted([], 0);
    assert |[] + ms[..k]| == k;
  }

  lemma FittingNone(ms: seq<seq<byte>>, whole: nat)
    requires whole <= |ms| && (whole == 0 || |ms[0]| + MESSAGE_SIZE > BUFFER_LENGTH)
    ensures Fitting(ms[..whole]) == []
  {
  }

  /** The last round: no whole frame is left, or the buffer is full of one that does not fit. */
  lemma NothingMore(carry: seq<byte>, n: nat, ms: seq<seq<byte>>)
    requires AllSendable(ms) && carry <= Stream(ms) && FrameLength(carry, 0) == 0
    requires n == |carry| || |carry| == BUFFER_LENGTH
    ensures Fitting(ms[..WholeFrames(ms, n)]) == []
  {
    hide FrameLength, Stream, AllSendable, Fitting;
    NoneWhole(carry, ms);
    FittingNone(ms, WholeFrames(ms, n));
  }

  lemma FittingSplit(ms: seq<seq<byte>>, k: nat, n: nat)
    requires k <= |ms| && WireLength(ms[..k]) <= n && WireLength(ms[..k]) <= BUFFER_LENGTH
    ensures Fitting(ms[..WholeFrames(ms, n)])
         == ms[..k] + Fitting(ms[k..][..WholeFrames(ms[k..], n - WireLength(ms[..k]))])
  {
    hide Fitting, WholeFrames, WireLength;
    var whole := WholeFrames(ms, n);
    WholeFramesConcat(ms, k, n);
    assert ms[..whole][..k] == ms[..k] && ms[..whole][k..] == ms[k..][..whole - k];
    FittingConcat(ms[..whole], k);
  }

  /** One round on part of a stream delivers its k whole frames and leaves a state on the stream of the others. */
  lemma Round(carry: seq<byte>, chunk: seq<byte>, rest: seq<byte>, messages: seq<seq<byte>>, ms: seq<seq<byte>>)
    returns (k: nat)
    requires AllSendable(ms) && carry + chunk + rest <= Stream(ms)
    requires |carry| + |chunk| <= BUFFER_LENGTH
    ensures k <= |ms| && AllSendable(ms[k..])
    ensures var st := Feed(State(carry, messages), chunk);
            && st.messages == messages + ms[..k] && |st.carry| <= BUFFER_LENGTH
            && FrameLength(st.carry, 0) == 0 && st.carry + rest <= Stream(ms[k..])
            && Fitting(ms[..WholeFrames(ms, |carry| + |chunk| + |rest|)])
               == ms[..k] + Fitting(ms[k..][..WholeFrames(ms[k..], |st.carry| + |rest|)])
  {
    hide FrameLength, Stream, Extract, Sendable, Fitting, WholeFrames, WireLength, Frame;
    var b := carry + chunk;
    k := WholeFrames(ms, |b|);
    var stop := WireLength(ms[..k]);
    assert b == [] + Stream(ms)[..|b|];
    ExtractPrefix([], ms, |b|, messages);
    assert b == b[..stop] + b[stop..];
    FrameShift(b[..stop], b[stop..], 0);
    assert ms == ms[..k] + ms[k..];
    StreamOfConcat(ms[..k], ms[k..]);
    assert b[stop..] + rest == (b + rest)[stop..] <= Stream(ms)[stop..] == Stream(ms[k..]);
    FittingSplit(ms, k, |b| + |rest|);
  }

  /** The bounded receiver, on any part of a stream, under any schedule that lets it finish: it delivers the whole
      frames received, up to the first that exceeds the buffer. */
  lemma {:induction false} ReceivesFitting(carry: seq<byte>, incoming: seq<byte>, schedule: seq<Outcome>,
                                           messages: seq<seq<byte>>, ms: seq<seq<byte>>)
    requires AllSendable(ms) && carry + incoming <= Stream(ms)
    requires |carry| <= BUFFER_LENGTH && FrameLength(carry, 0) == 0
    requires Receive(carry, incoming, schedule, messages).verdict == Finished
    ensures Receive(carry, incoming, schedule, messages).messages
            == messages + Fitting(ms[..WholeFrames(ms, |carry| + |incoming|)])
    decreases |incoming|
  {
    hide Stream, ReadRun, Feed, WholeFrames, Fitting, AllSendable, WireLength;
    var t := ReadRun(schedule, BUFFER_LENGTH - |carry|, |incoming|, true);
    if t.moved == 0 {
      assert carry <= carry + incoming;
      NothingMore(carry, |carry| + |incoming|, ms);
      assert messages + [] == messages;
    } else {
      var chunk, rest := incoming[..t.moved], incoming[t.moved..];
      assert carry + incoming == carry + chunk + rest;
      var st := Feed(State(carry, messages), chunk);
      var k := Round(carry, chunk, rest, messages, ms);
      ReceivesFitting(st.carry, rest, t.rest, st.messages, ms[k..]);
      assert messages + ms[..k] + Fitting(ms[k..][..WholeFrames(ms[k..], |st.carry| + |rest|)])
          == messages + (ms[..k] + Fitting(ms[k..][..WholeFrames(ms[k..], |st.carry| + |rest|)]));
    }
  }

  /** Enough answers from the kernel, and the receiver finishes: every round moves a byte or ends it. */
  lemma {:induction false} ReceiveFinishes(carry: seq<byte>, incoming: seq<byte>, schedule: seq<Outcome>,
                                           messages: seq<seq<byte>>)
    requires |carry| <= BUFFER_LENGTH
    requires Answers(schedule) >= if incoming == [] then 1 else |incoming| + 2
    ensures Receive(carry, incoming, schedule, messages).verdict == Finished
    decreases |incoming|
  {
    hide Extract, Answers, ReadRun;
    var t := ReadRun(schedule, BUFFER_LENGTH - |carry|, |incoming|, true);
    ReadnFinishes(schedule, BUFFER_LENGTH - |carry|, |incoming|);
    if t.moved > 0 {
      var st := Feed(State(carry, messages), incoming[..t.moved]);
      ReceiveFinishes(st.carry, incoming[t.moved..], t.rest, st.messages);
    }
  }

  /** A receiver that does not finish reports an error exactly when the schedule has a failure; else it never
      returns. */
  lemma {:induction false} ReceiveVerdict(carry: seq<byte>, incoming: seq<byte>, schedule: seq<Outcome>,
                                          messages: seq<seq<byte>>)
    requires |carry| <= BUFFER_LENGTH
    ensures var v := Receive(carry, incoming, schedule, messages).verdict;
            && (v == HardError ==> Failed in schedule)
            && (v == Blocked ==> Failed !in schedule)
    decreases |incoming|
  {
    hide Extract, ReadRun;
    var t := ReadRun(schedule, BUFFER_LENGTH - |carry|, |incoming|, true);
    ReadnFailure(schedule, BUFFER_LENGTH - |carry|, |incoming|);
    if t.verdict == Finished && t.moved > 0 {
      var st := Feed(State(carry, messages), incoming[..t.moved]);
      ReceiveVerdict(st.carry, incoming[t.moved..], t.rest, st.messages);
    }
  }

  lemma {:induction false} FittingMeaning(ms: seq<seq<byte>>)
    ensures Fitting(ms) <= ms
    ensures Fitting(ms) == ms <==> forall m :: m in ms ==> |m| + MESSAGE_SIZE <= BUFFER_LENGTH
  {
    if ms != [] {
      FittingMeaning(ms[1..]);
      assert ms == [ms[0]] + ms[1..];
      if |ms[0]| + MESSAGE_SIZE <= BUFFER_LENGTH && Fitting(ms) == ms {
        assert Fitting(ms)[1..] == Fitting(ms[1..]);
      }
    }
  }

  /** Whatever the schedule does, even when the receiver fails or blocks: what it has delivered is a prefix of the
      messages. */
  lemma {:induction false} ReceivesPrefix(carry: seq<byte>, incoming: seq<byte>, schedule: seq<Outcome>,
                                          messages: seq<seq<byte>>, ms: seq<seq<byte>>) returns (k: nat)
    requires AllSendable(ms) && carry + incoming <= Stream(ms) && |carry| <= BUFFER_LENGTH
    ensures k <= |ms| && Receive(carry, incoming, schedule, messages).messages == messages + ms[..k]
    decreases |incoming|
  {
    hide Stream, ReadRun, Feed, WholeFrames, Fitting, AllSendable, WireLength;
    var t := ReadRun(schedule, BUFFER_LENGTH - |carry|, |incoming|, true);
    if t.verdict != Finished || t.moved == 0 {
      k := 0;
      assert messages + ms[..0] == messages;
    } else {
      var chunk, rest := incoming[..t.moved], incoming[t.moved..];
      assert carry + incoming == carry + chunk + rest;
      var st := Feed(State(carry, messages), chunk);
      var j := Round(carry, chunk, rest, messages, ms);
      var i := ReceivesPrefix(st.carry, rest, t.rest, st.messages, ms[j..]);
      k := j + i;
      assert messages + ms[..j] + ms[j..][..i] == messages + ms[..k];
    }
  }

  lemma WholeAndFitting(ms: seq<seq<byte>>, wire: seq<byte>)
    requires AllSendable(ms) && wire <= Stream(ms)
    ensures Fitting(ms[..WholeFrames(ms, |wire|)]) == ms <==>
            wire == Stream(ms) && forall m :: m in ms ==> |m| + MESSAGE_SIZE <= BUFFER_LENGTH
  {
    hide Stream, Fitting, WholeFrames;
    var whole := ms[..WholeFrames(ms, |wire|)];
    FittingMeaning(whole);
    assert Fitting(whole) <= whole <= ms;
    WholeStream(ms, |wire|);
    assert |whole| == |ms| ==> whole == ms;
  }

  /** End to end with the intended receiver, for any two schedules: a prefix of the messages arrives, even when
      sender or receiver fails or blocks inside a frame. A receiver that is answered often enough finishes, and
      one that finishes has exactly the whole frames that went out, up to the first that exceeds the buffer; so
      everything arrives if and only if the sender completes and every frame fits the buffer. */
  lemma IntendedDelivery(ms: seq<seq<byte>>, sending: seq<Outcome>, receiving: seq<Outcome>)
    requires AllSendable(ms)
    ensures var s := SendAll(ms, sending);
            var r := Receive([], s.wire, receiving, []);
            && r.messages <= ms
            && (Answers(receiving) >= WireLength(ms) + 2 ==> r.verdict == Finished)
            && (r.verdict == Finished ==>
                  && r.messages == Fitting(ms[..WholeFrames(ms, |s.wire|)])
                  && (r.messages == ms <==>
                      s.complete && forall m :: m in ms ==> |m| + MESSAGE_SIZE <= BUFFER_LENGTH))
  {
    hide Receive, Stream, SendAll, Fitting, WholeFrames, Answers, FrameLength, WireLength, AllSendable;
    var s := SendAll(ms, sending);
    SentIsStream(ms, sending);
    EmptyWaits([]);
    assert [] + s.wire == s.wire;
    var k := ReceivesPrefix([], s.wire, receiving, [], ms);
    assert [] + ms[..k] == ms[..k];
    if Answers(receiving) >= WireLength(ms) + 2 {
      ReceiveFinishes([], s.wire, receiving, []);
    }
    if Receive([], s.wire, receiving, []).verdict == Finished {
      ReceivesFitting([], s.wire, receiving, [], ms);
      WholeAndFitting(ms, s.wire);
      assert [] + Fitting(ms[..WholeFrames(ms, |s.wire|)]) == Fitting(ms[..WholeFrames(ms, |s.wire|)]);
    }
  }

  /** Progress with a bounded buffer: when every frame fits, a round that does not use up the stream fills the
      buffer, and a full buffer holds a whole frame, so the round delivers a message. */
  lemma RoundDelivers(carry: seq<byte>, incoming: seq<byte>, schedule: seq<Outcome>, ms: seq<seq<byte>>)
    requires AllSendable(ms) && carry + incoming <= Stream(ms) && |carry| <= BUFFER_LENGTH
    requires forall m :: m in ms ==> |m| + MESSAGE_SIZE <= BUFFER_LENGTH
    ensures var t := ReadRun(schedule, BUFFER_LENGTH - |carry|, |incoming|, true);
            var st := Feed(State(carry, []), incoming[..t.moved]);
            t.verdict == Finished ==> t.moved == |incoming| || (st.messages != [] && st.messages <= ms)
  {
    hide ReadRun, Extract, FrameLength, Stream, Sendable;
    var t := ReadRun(schedule, BUFFER_LENGTH - |carry|, |incoming|, true);
    if t.verdict == Finished && t.moved < |incoming| {
      var b := carry + incoming[..t.moved];
      assert b <= carry + incoming && |b| == BUFFER_LENGTH;
      assert b == [] + Stream(ms)[..|b|];
      ExtractPrefix([], ms, |b|, []);
      assert ms[0] in ms;
    }
  }

  // ----- in place

  method ExtractBuffer(buffer: array<byte>, used: nat, delivered: seq<seq<byte>>)
    returns (messages: seq<seq<byte>>, stop: nat)
    requires used <= buffer.Length
    ensures Extracted(messages, stop) == Extract(buffer[..used], 0, delivered)
  {
    hide FrameLength, Text;
    messages, stop := delivered, 0;
    ghost var whole := Extract(buffer[..used], 0, delivered);
    while true
      invariant stop <= used
      invariant whole == Extract(buffer[..used], stop, messages)
      decreases used - stop
    {
      var n := FrameLength(buffer[..used], stop);
      if n == 0 {
        return;
      }
      messages, stop := messages + [Text(buffer[..used], stop, n)], stop + n;
    }
  }

  /** memmove(buffer, buffer + from, n). */
  method MoveToFront(buffer: array<byte>, from: nat, n: nat)
    requires from + n <= buffer.Length
    modifies buffer
    ensures buffer[..n] == old(buffer[from..from + n])
  {
    var i := 0;
    while i < n
      invariant 0 <= i <= n
      invariant forall k :: 0 <= k < i ==> buffer[k] == old(buffer[from + k])
      invariant forall k :: i <= k < buffer.Length ==> buffer[k] == old(buffer[k])
    {
      buffer[i] := buffer[from + i];
      i := i + 1;
    }
  }

  method ReceiveAll(s: Socket) returns (messages: seq<seq<byte>>, verdict: Verdict)
    modifies s
    ensures s.outgoing == old(s.outgoing)
    ensures Received(messages, verdict) == Receive([], old(s.incoming), old(s.schedule), [])
  {
    hide ReadRun, Extract, Zeros;
    var buffer := new byte[BUFFER_LENGTH];
    var used := 0;
    messages := [];
    ghost var received := Receive([], s.incoming, s.schedule, []);
    while true
      invariant 0 <= used <= BUFFER_LENGTH
      invariant s.outgoing == old(s.outgoing)
      invariant received == Receive(buffer[..used], s.incoming, s.schedule, messages)
      decreases |s.incoming|
    {
      ghost var carry, incoming := buffer[..used], s.incoming;
      ghost var t := ReadRun(s.schedule, BUFFER_LENGTH - used, |s.incoming|, true);
      var count := FillBuffer(s, buffer, used, true);
      if count == Pending || count.n <= 0 {
        return messages, if count == Pending then Blocked else if count.n < 0 then HardError else Finished;
      }
      used := used + count.n;
      assert buffer[..used] == carry + incoming[..t.moved];
      var stop;
      messages, stop := ExtractBuffer(buffer, used, messages);
      MoveToFront(buffer, stop, used - stop);
      used := used - stop;
    }
  }
}
