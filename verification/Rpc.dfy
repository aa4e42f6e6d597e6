/** protocol/rpc.cpp: a frame is a 4-byte magic, its own 4-byte total length, a C string and its NUL. */
module Rpc {
  import opened Bytes

  const MAGIC := 0x55443322
  const MAXIMUM_PACKET_LENGTH := 1024000
  const HEADER_SIZE := 8   // sizeof(Header), packed
  const MESSAGE_SIZE := 9  // sizeof(Message), packed: the header and char msg[1]

  predicate Sendable(m: seq<byte>) {
    NulFree(m) && |m| + MESSAGE_SIZE <= MAXIMUM_PACKET_LENGTH
  }

  predicate AllSendable(ms: seq<seq<byte>>) {
    forall i :: 0 <= i < |ms| ==> Sendable(ms[i])
  }

  /** The bytes that represent the message m on the wire. */
  function Frame(m: seq<byte>): (b: seq<byte>)
    requires Sendable(m)
    ensures |b| == |m| + MESSAGE_SIZE
  {
    U32Le(MAGIC) + U32Le(|m| + MESSAGE_SIZE) + m + [0]
  }

  /** A frame recognised by its bytes alone. */
  predicate IsFrame(b: seq<byte>) {
    && MESSAGE_SIZE <= |b| <= MAXIMUM_PACKET_LENGTH
    && U32At(b, 0) == MAGIC
    && U32At(b, 4) == |b|
    && b[|b| - 1] == 0
    && NulFree(b[HEADER_SIZE..|b| - 1])
  }

  /** The number of bytes the messages ms take up on the wire. */
  function WireLength(ms: seq<seq<byte>>): (n: nat) {
    if ms == [] then 0 else |ms[0]| + MESSAGE_SIZE + WireLength(ms[1..])
  }

  function Stream(ms: seq<seq<byte>>): (b: seq<byte>)
    requires AllSendable(ms)
    ensures |b| == WireLength(ms)
  {
    if ms == [] then [] else Frame(ms[0]) + Stream(ms[1..])
  }

  /** GetMessageLength(const void *, size_t) on a pointer to offset at of mem. */
  function GetMessageLength(mem: seq<byte>, at: nat, length: nat): (r: int)
    requires length >= HEADER_SIZE ==> at + HEADER_SIZE <= |mem|
    ensures -1 <= r <= MAXIMUM_PACKET_LENGTH
    ensures r > 0 ==> length >= HEADER_SIZE
  {
    if length < HEADER_SIZE then 0
    else if U32At(mem, at) != MAGIC then -1
    else if U32At(mem, at + 4) > MAXIMUM_PACKET_LENGTH then -1
    else U32At(mem, at + 4)
  }

  /** GetMessageLength(const std::string &). */
  function GetStringLength(msg: seq<byte>): (n: nat) {
    MESSAGE_SIZE + |CStr(msg)|
  }

  /** Parse(const void *, size_t), which returns the text unchecked. */
  function ParseText(mem: seq<byte>, at: nat): (b: seq<byte>)
    requires at + HEADER_SIZE <= |mem| && TerminatedAt(mem, at + HEADER_SIZE)
  {
    CStrAt(mem, at + HEADER_SIZE)
  }

  /** The return values 0, -1 and -2. */
  datatype ParseResult = Parsed(msg: seq<byte>) | LengthTooLarge | StringTooLong

  /** Parse(const void *, size_t, std::string &). strlen runs over the memory behind the header, so the
      caller owes it a NUL somewhere; length does not bound that search. */
  function Parse(mem: seq<byte>, at: nat, length: nat): (p: ParseResult)
    requires at + HEADER_SIZE <= |mem| && TerminatedAt(mem, at + HEADER_SIZE)
  {
    var text := CStrAt(mem, at + HEADER_SIZE);
    if U32At(mem, at + 4) > length then LengthTooLarge
    else if StrLen(mem, at + HEADER_SIZE) > length then StringTooLong
    else Parsed(text)
  }

  /** The refusals: the length is checked before the text, the text against the same bound. */
  lemma ParseVerdict(mem: seq<byte>, at: nat, length: nat)
    requires at + HEADER_SIZE <= |mem| && TerminatedAt(mem, at + HEADER_SIZE)
    ensures var n, text := U32At(mem, at + 4), ParseText(mem, at);
            && (Parse(mem, at, length) == LengthTooLarge <==> length < n)
            && (Parse(mem, at, length) == StringTooLong <==> n <= length < |text|)
            && (n <= length && |text| <= length ==> Parse(mem, at, length) == Parsed(text))
  {
    hide U32At, StrLen;
  }

  /** The three stores through a Message pointer: magic, length, and strcpy into msg. */
  method StoreMessage(buffer: array<byte>, magic: nat, length: nat, text: seq<byte>)
    requires magic < WORD_LIMIT && length < WORD_LIMIT && |text| + MESSAGE_SIZE <= buffer.Length
    modifies buffer
    ensures buffer[..] == U32Le(magic) + U32Le(length) + (text + [0]) + old(buffer[|text| + MESSAGE_SIZE..])
  {
    ghost var was := buffer[..];
    var x, y, z := U32Le(magic), U32Le(length), text + [0];
    CopyIn(buffer, 0, x);
    assert buffer[..] == x + was[4..];
    CopyIn(buffer, 4, y);
    assert buffer[..] == x + y + was[8..];
    assert (x + y + was[8..])[..8] == x + y;
    assert (x + y + was[8..])[8 + |z|..] == was[8 + |z|..];
    CopyIn(buffer, HEADER_SIZE, z);
  }

  /** Serialize: writes the frame of the C string msg into the front of buffer. */
  method Serialize(buffer: array<byte>, msg: seq<byte>) returns (n: nat)
    requires GetStringLength(msg) <= MAXIMUM_PACKET_LENGTH ==> GetStringLength(msg) <= buffer.Length
    modifies buffer
    ensures n == 0 <==> GetStringLength(msg) > MAXIMUM_PACKET_LENGTH
    ensures n == 0 ==> buffer[..] == old(buffer[..])
    ensures n > 0 ==> n == GetStringLength(msg) && Sendable(CStr(msg))
    ensures n > 0 ==> buffer[..] == Frame(CStr(msg)) + old(buffer[n..])
  {
    var text := CStr(msg);
    if |text| + MESSAGE_SIZE > MAXIMUM_PACKET_LENGTH {
      return 0;
    }
    // (uint32_t)sizeof(Message) + (uint32_t)strlen(...), in 32-bit arithmetic
    var length := (MESSAGE_SIZE + |text| % WORD_LIMIT) % WORD_LIMIT;
    assert Sendable(text) && length == |text| + MESSAGE_SIZE;
    assert Frame(text) == U32Le(MAGIC) + U32Le(length) + (text + [0]);
    StoreMessage(buffer, MAGIC, length, text);
    n := length;
  }

  /** The frame of m lies in mem from offset at. */
  predicate Stored(mem: seq<byte>, at: nat, m: seq<byte>)
    requires Sendable(m)
  {
    at + |Frame(m)| <= |mem| && mem[at..at + |Frame(m)|] == Frame(m)
  }

  lemma FrameParts(m: seq<byte>)
    requires Sendable(m)
    ensures var f := Frame(m);
            && f[0..4] == U32Le(MAGIC) && f[4..8] == U32Le(|m| + MESSAGE_SIZE)
            && f[8..8 + |m|] == m && f[8 + |m|] == 0
  {
    hide U32Le;
  }

  lemma StoredFields(mem: seq<byte>, at: nat, m: seq<byte>)
    requires Sendable(m) && Stored(mem, at, m)
    ensures U32At(mem, at) == MAGIC && U32At(mem, at + 4) == |Frame(m)|
    ensures CStrAt(mem, at + HEADER_SIZE) == m && TerminatedAt(mem, at + HEADER_SIZE)
  {
    hide U32At, U32Le, StrLen, Frame;
    var f := Frame(m);
    FrameParts(m);
    SubSlice(mem, at, f, 0, 4);
    SubSlice(mem, at, f, 4, 8);
    SubSlice(mem, at, f, 8, 8 + |m|);
    assert mem[at + 8 + |m|] == mem[at..at + |f|][8 + |m|];
    U32Stored(mem, at, MAGIC);
    U32Stored(mem, at + 4, |m| + MESSAGE_SIZE);
    CStrStored(mem, at + HEADER_SIZE, m);
  }

  /** Length agreement: the serialised length, the stored word and both overloads are one number. */
  lemma LengthAgreement(mem: seq<byte>, at: nat, msg: seq<byte>, length: nat)
    requires Sendable(CStr(msg)) && Stored(mem, at, CStr(msg)) && length >= HEADER_SIZE
    ensures GetStringLength(msg) == |Frame(CStr(msg))| == U32At(mem, at + 4) == GetMessageLength(mem, at, length)
  {
    StoredFields(mem, at, CStr(msg));
  }

  /** Parsing what was serialised gives the string cut at its first NUL, whatever memory surrounds the frame,
      for every length that covers the frame; a shorter one is refused. */
  lemma RoundTrip(mem: seq<byte>, at: nat, msg: seq<byte>, length: nat)
    requires Sendable(CStr(msg)) && Stored(mem, at, CStr(msg))
    ensures TerminatedAt(mem, at + HEADER_SIZE)
    ensures Parse(mem, at, length) ==
            if length >= GetStringLength(msg) then Parsed(CStr(msg)) else LengthTooLarge
    ensures ParseText(mem, at) == CStr(msg)
  {
    StoredFields(mem, at, CStr(msg));
  }

  /** Frame and IsFrame describe the same byte strings, and re-serialising a parsed frame gives it back. */
  lemma Canonical(b: seq<byte>)
    ensures IsFrame(b) <==> exists m :: Sendable(m) && b == Frame(m)
    ensures IsFrame(b) ==>
              && TerminatedAt(b, HEADER_SIZE) && Parse(b, 0, |b|).Parsed?
              && Sendable(Parse(b, 0, |b|).msg) && Frame(Parse(b, 0, |b|).msg) == b
  {
    hide U32At, U32Le, StrLen;
    if IsFrame(b) {
      var m := b[HEADER_SIZE..|b| - 1];
      U32Canonical(b, 0);
      U32Canonical(b, 4);
      assert b == b[0..4] + b[4..8] + m + [0];
      assert b == Frame(m);
      CStrStored(b, HEADER_SIZE, m);
    }
    if exists m :: Sendable(m) && b == Frame(m) {
      var m :| Sendable(m) && b == Frame(m);
      StoredFields(b, 0, m);
      assert b[HEADER_SIZE..|b| - 1] == m;
    }
  }

  /** No frame is a proper prefix of another. */
  lemma PrefixFree(m: seq<byte>, k: seq<byte>, x: seq<byte>, y: seq<byte>)
    requires Sendable(m) && Sendable(k) && Frame(m) + x == Frame(k) + y
    ensures m == k && x == y
  {
    var b := Frame(m) + x;
    StoredFields(b, 0, m);
    StoredFields(b, 0, k);
    assert x == b[|Frame(m)|..] && y == b[|Frame(k)|..];
  }

  lemma StreamOfConcat(ms: seq<seq<byte>>, ks: seq<seq<byte>>)
    requires AllSendable(ms) && AllSendable(ks)
    ensures AllSendable(ms + ks) && Stream(ms + ks) == Stream(ms) + Stream(ks)
  {
    hide Frame, Sendable;
    if ms == [] {
      assert ms + ks == ks;
    } else {
      StreamOfConcat(ms[1..], ks);
      assert (ms + ks)[1..] == ms[1..] + ks;
      assert (ms + ks)[0] == ms[0];
    }
  }

  /** Unique decodability, in its prefix form: one stream can only extend another by whole further messages. */
  lemma {:induction false} UniquelyDecodable(ms: seq<seq<byte>>, ks: seq<seq<byte>>, x: seq<byte>)
    requires AllSendable(ms) && AllSendable(ks) && Stream(ms) + x == Stream(ks)
    ensures ms <= ks && x == Stream(ks[|ms|..])
  {
    hide Frame, Sendable;
    if ms == [] {
      assert ks[0..] == ks;
      assert Stream(ms) + x == x;
    } else {
      assert Stream(ms) + x == Frame(ms[0]) + (Stream(ms[1..]) + x);
      assert ks != [];
      PrefixFree(ms[0], ks[0], Stream(ms[1..]) + x, Stream(ks[1..]));
      UniquelyDecodable(ms[1..], ks[1..], x);
      assert ks[1..][|ms| - 1..] == ks[|ms|..];
      assert ms == [ms[0]] + ms[1..] && ks == [ks[0]] + ks[1..];
    }
  }

  /** How many of the frames of ms the first n bytes of their stream hold whole. */
  function WholeFrames(ms: seq<seq<byte>>, n: nat): (k: nat)
    ensures k <= |ms|
  {
    if ms == [] || n < |ms[0]| + MESSAGE_SIZE then 0
    else 1 + WholeFrames(ms[1..], n - |ms[0]| - MESSAGE_SIZE)
  }

  lemma {:induction false} WholeFramesFit(ms: seq<seq<byte>>, n: nat)
    ensures var k := WholeFrames(ms, n);
            WireLength(ms[..k]) <= n && (k < |ms| ==> n < WireLength(ms[..k]) + |ms[k]| + MESSAGE_SIZE)
  {
    var k := WholeFrames(ms, n);
    if k > 0 {
      WholeFramesFit(ms[1..], n - |ms[0]| - MESSAGE_SIZE);
      assert ms[..k] == [ms[0]] + ms[1..][..k - 1];
    }
  }

  lemma {:induction false} WholeStream(ms: seq<seq<byte>>, n: nat)
    ensures WholeFrames(ms, n) == |ms| <==> n >= WireLength(ms)
  {
    if ms != [] && n >= |ms[0]| + MESSAGE_SIZE {
      WholeStream(ms[1..], n - |ms[0]| - MESSAGE_SIZE);
    }
  }

  lemma StreamCons(ms: seq<seq<byte>>)
    requires ms != [] && AllSendable(ms)
    ensures Stream(ms) == Frame(ms[0]) + Stream(ms[1..])
  {
  }

  /** Any number of bytes of a stream are its whole frames and a proper prefix of the next one. */
  lemma StreamCut(ms: seq<seq<byte>>, n: nat)
    requires AllSendable(ms) && n <= WireLength(ms)
    ensures var k := WholeFrames(ms, n);
            var whole := WireLength(ms[..k]);
            && whole <= n && (k == |ms| ==> whole == n)
            && (k < |ms| ==>
                  && n - whole < |Frame(ms[k])|
                  && Stream(ms)[..n] == Stream(ms[..k]) + Frame(ms[k])[..n - whole])
  {
    WholeFramesFit(ms, n);
    var k := WholeFrames(ms, n);
    hide Frame, Sendable, Stream, WholeFrames, WireLength;
    if k == |ms| {
      assert ms[..k] == ms;
    } else {
      assert ms == ms[..k] + ms[k..];
      StreamOfConcat(ms[..k], ms[k..]);
      StreamCons(ms[k..]);
    }
  }

  /** What a reader finds at offset at of mem when the frame of m lies there. */
  predicate FrameAt(mem: seq<byte>, at: nat, m: seq<byte>) {
    && at + |m| + MESSAGE_SIZE <= |mem|
    && U32At(mem, at) == MAGIC && U32At(mem, at + 4) == |m| + MESSAGE_SIZE <= MAXIMUM_PACKET_LENGTH
    && TerminatedAt(mem, at + HEADER_SIZE) && CStrAt(mem, at + HEADER_SIZE) == m
  }

  predicate FramesAt(mem: seq<byte>, at: nat, ms: seq<seq<byte>>)
    decreases |ms|
  {
    ms == [] || (FrameAt(mem, at, ms[0]) && FramesAt(mem, at + |ms[0]| + MESSAGE_SIZE, ms[1..]))
  }

  lemma FrameIsFrameAt(pre: seq<byte>, m: seq<byte>, post: seq<byte>)
    requires Sendable(m)
    ensures FrameAt(pre + Frame(m) + post, |pre|, m)
  {
    assert Stored(pre + Frame(m) + post, |pre|, m);
    StoredFields(pre + Frame(m) + post, |pre|, m);
  }

  lemma {:induction false} StreamIsFrames(pre: seq<byte>, ms: seq<seq<byte>>, post: seq<byte>)
    requires AllSendable(ms)
    ensures FramesAt(pre + Stream(ms) + post, |pre|, ms)
    decreases |ms|
  {
    hide Frame, FrameAt;
    if ms != [] {
      var mem := pre + Stream(ms) + post;
      var f, rest := Frame(ms[0]), Stream(ms[1..]);
      assert mem == pre + f + (rest + post) && mem == (pre + f) + rest + post;
      FrameIsFrameAt(pre, ms[0], rest + post);
      StreamIsFrames(pre + f, ms[1..], post);
    }
  }

  lemma StreamInFront(ms: seq<seq<byte>>, after: seq<byte>)
    requires AllSendable(ms)
    ensures FramesAt(Stream(ms) + after, 0, ms)
  {
    StreamIsFrames([], ms, after);
    assert [] + Stream(ms) + after == Stream(ms) + after;
  }
}
