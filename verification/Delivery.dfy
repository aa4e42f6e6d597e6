/** What reaches the reader of read_string when the peer calls write_string once per message. */
module Delivery {
  import opened Bytes
  import opened Rpc
  import opened SafeIo
  import opened Parsing
  import opened StringIo

  /** The bytes a series of write_string calls puts on the wire, stopping at the first that does not finish. */
  datatype Sent = Sent(wire: seq<byte>, complete: bool)

  function SendAll(ms: seq<seq<byte>>, schedule: seq<Outcome>): (sent: Sent)
    requires AllSendable(ms)
  {
    if ms == [] then Sent([], true)
    else
      var f := Frame(ms[0]);
      var t := WriteRun(schedule, |f|);
      if t.verdict == Finished then
        var s := SendAll(ms[1..], t.rest);
        Sent(f + s.wire, s.complete)
      else Sent(f[..t.moved], false)
  }

  /** The wire carries the stream of the messages, or a proper prefix of it when some call did not finish. */
  lemma {:induction false} SentIsStream(ms: seq<seq<byte>>, schedule: seq<Outcome>)
    requires AllSendable(ms)
    ensures var s := SendAll(ms, schedule);
            s.wire <= Stream(ms) && (s.complete <==> s.wire == Stream(ms))
  {
    hide Frame;
    if ms != [] {
      var f := Frame(ms[0]);
      var t := WriteRun(schedule, |f|);
      if t.verdict == Finished {
        SentIsStream(ms[1..], t.rest);
      } else {
        assert f[..t.moved] <= f;
      }
    }
  }

  /** What the first call contributes: its whole frame when the kernel would take that many bytes before its first
      refusal, and then the others follow with the answers left; otherwise just the bytes it would take. */
  lemma SentStep(ms: seq<seq<byte>>, schedule: seq<Outcome>)
    requires AllSendable(ms) && ms != []
    ensures var f, s := Frame(ms[0]), SendAll(ms, schedule);
            if Budget(schedule) >= |f| then
              var next := SendAll(ms[1..], schedule[WriteCalls(schedule, |f|)..]);
              s == Sent(f + next.wire, next.complete)
            else s == Sent(f[..Budget(schedule)], false)
  {
    hide Frame, WriteRun, Budget, WriteCalls;
    WritenMeaning(schedule, |Frame(ms[0])|);
    WritenCalls(schedule, |Frame(ms[0])|);
  }

  /** A round whose readn returns nothing but its verdict, or end of file: a failed read makes read_string return -1,
      one that never returns leaves it waiting, and end of file makes it return the total so far. */
  lemma RoundReadsNothing(carry: seq<byte>, incoming: seq<byte>, schedule: seq<Outcome>, total: int,
                          printed: seq<seq<byte>>)
    requires |carry| <= BUFFER_LENGTH
    ensures var u := ReadRun(schedule, BUFFER_LENGTH - |carry|, |incoming|, false);
            u.verdict != Finished || u.moved == 0 ==>
              Rounds(carry, incoming, schedule, total, printed) ==
              Reading(printed,
                      match u.verdict case HardError => Ret(-1) case Blocked => Waiting case Finished => Ret(total),
                      incoming[u.moved..], u.rest)
  {
    hide ReadRun, Drain, Filled, SelfCopy;
  }

  /** The same by the schedule, when it ends before the buffer is full and before the stream does. */
  lemma SupplyEnds(carry: seq<byte>, incoming: seq<byte>, schedule: seq<Outcome>, total: int, printed: seq<seq<byte>>)
    requires |carry| <= BUFFER_LENGTH && Supply(schedule) < Min(BUFFER_LENGTH - |carry|, |incoming|)
    ensures var r := Rounds(carry, incoming, schedule, total, printed);
            && (Stop(schedule) == HardError ==> r.end == Ret(-1) && r.printed == printed)
            && (Stop(schedule) == Blocked ==> r.end == Waiting && r.printed == printed)
            && (Stop(schedule) == Finished && Supply(schedule) == 0 ==> r.end == Ret(total) && r.printed == printed)
  {
    hide ReadRun, Supply, Stop, Rounds;
    ReadnMeaning(schedule, BUFFER_LENGTH - |carry|, |incoming|);
    RoundReadsNothing(carry, incoming, schedule, total, printed);
  }

  /** At end of file the next answer decides. */
  lemma AtEndOfFile(carry: seq<byte>, schedule: seq<Outcome>, total: int, printed: seq<seq<byte>>)
    requires |carry| < BUFFER_LENGTH
    ensures Rounds(carry, [], schedule, total, printed) ==
            if schedule == [] then Reading(printed, Waiting, [], [])
            else Reading(printed, if schedule[0] == Failed then Ret(-1) else Ret(total), [], schedule[1..])
  {
    hide ReadRun, Rounds;
    ReadOnce(schedule, BUFFER_LENGTH - |carry|, 0, false);
    RoundReadsNothing(carry, [], schedule, total, printed);
  }

  lemma RoundOnce(carry: seq<byte>, incoming: seq<byte>, schedule: seq<Outcome>, total: int, printed: seq<seq<byte>>)
    requires |carry| <= BUFFER_LENGTH
    requires var u := ReadRun(schedule, BUFFER_LENGTH - |carry|, |incoming|, false);
             u.verdict == Finished && u.moved > 0
    ensures var u := ReadRun(schedule, BUFFER_LENGTH - |carry|, |incoming|, false);
            var mem, unread := Filled(carry, incoming[..u.moved]), incoming[u.moved..];
            var d := Drain(mem, 0, |carry| + u.moved, []);
            var texts := printed + d.messages;
            Rounds(carry, incoming, schedule, total, printed) ==
            match d.end
            case Endless => Reading(texts, Looping, unread, u.rest)
            case Outside => Reading(texts, Astray, unread, u.rest)
            case Rest(count) =>
              if count < 0 then Reading(texts, Astray, unread, u.rest)
              else if count == 0 then Reading(texts, Ret(total), unread, u.rest)
              else Rounds(SelfCopy(mem, count), unread, u.rest, total + count, texts)
  {
    hide ReadRun, Drain, Filled, SelfCopy;
  }

  /** A round that reads something does next what the passes of parse's loop make of the buffer. */
  lemma RoundFollowsParse(carry: seq<byte>, incoming: seq<byte>, schedule: seq<Outcome>, total: int,
                          printed: seq<seq<byte>>, end: PassResult)
    requires |carry| <= BUFFER_LENGTH
    requires var u := ReadRun(schedule, BUFFER_LENGTH - |carry|, |incoming|, false);
             && u.verdict == Finished && u.moved > 0
             && Ends(Filled(carry, incoming[..u.moved]), Cursor(0, |carry| + u.moved, []), end)
    ensures var u := ReadRun(schedule, BUFFER_LENGTH - |carry|, |incoming|, false);
            var mem, unread := Filled(carry, incoming[..u.moved]), incoming[u.moved..];
            var r := Rounds(carry, incoming, schedule, total, printed);
            match end
            case OutOfBuffer(texts) => r == Reading(printed + texts, Astray, unread, u.rest)
            case Return(count, texts) =>
              count <= BUFFER_LENGTH &&
              r == (if count < 0 then Reading(printed + texts, Astray, unread, u.rest)
                    else if count == 0 then Reading(printed + texts, Ret(total), unread, u.rest)
                    else Rounds(SelfCopy(mem, count), unread, u.rest, total + count, printed + texts))
            case Again(_) => true
  {
    hide *;
    var u := ReadRun(schedule, BUFFER_LENGTH - |carry|, |incoming|, false);
    var mem, c := Filled(carry, incoming[..u.moved]), Cursor(0, |carry| + u.moved, []);
    DrainSays(mem, 0, c.count, []);
    RoundOnce(carry, incoming, schedule, total, printed);
  }

  /** It loops for ever exactly when that loop never ends. */
  lemma RoundLoops(carry: seq<byte>, incoming: seq<byte>, schedule: seq<Outcome>, total: int, printed: seq<seq<byte>>)
    requires |carry| <= BUFFER_LENGTH
    requires var u := ReadRun(schedule, BUFFER_LENGTH - |carry|, |incoming|, false);
             && u.verdict == Finished && u.moved > 0
             && NeverEnds(Filled(carry, incoming[..u.moved]), Cursor(0, |carry| + u.moved, []))
    ensures Rounds(carry, incoming, schedule, total, printed).end == Looping
  {
    hide *;
    var u := ReadRun(schedule, BUFFER_LENGTH - |carry|, |incoming|, false);
    var mem, c := Filled(carry, incoming[..u.moved]), Cursor(0, |carry| + u.moved, []);
    DrainSays(mem, 0, c.count, []);
    RoundOnce(carry, incoming, schedule, total, printed);
  }

  /** Any round of read_string whose buffer then holds part of a stream: ms whole and t bytes of the frame of cut. It
      prints ms. Without a cut the reading ends there; a cut inside a header leaves a carry for further rounds; a
      cut inside a body sends parse past the end of the bytes in use. */
  lemma RoundOnStream(carry: seq<byte>, incoming: seq<byte>, schedule: seq<Outcome>, total: int,
                      printed: seq<seq<byte>>, ms: seq<seq<byte>>, cut: seq<byte>, t: nat)
    requires |carry| <= BUFFER_LENGTH && AllSendable(ms) && Sendable(cut) && t < |Frame(cut)|
    requires var u := ReadRun(schedule, BUFFER_LENGTH - |carry|, |incoming|, false);
             && u.verdict == Finished && u.moved > 0
             && carry + incoming[..u.moved] == Stream(ms) + Frame(cut)[..t]
    ensures var u := ReadRun(schedule, BUFFER_LENGTH - |carry|, |incoming|, false);
            var mem, unread := Filled(carry, incoming[..u.moved]), incoming[u.moved..];
            var r := Rounds(carry, incoming, schedule, total, printed);
            && (t == 0 ==> r == Reading(printed + ms, Ret(total), unread, u.rest))
            && (0 < t < HEADER_SIZE ==>
                  r == Rounds(SelfCopy(mem, t), unread, u.rest, total + t, printed + ms))
            && (t >= HEADER_SIZE ==>
                  var part := if |carry| + u.moved < BUFFER_LENGTH then [cut[..t - HEADER_SIZE]] else [];
                  r == Reading(printed + ms + part, Astray, unread, u.rest))
  {
    hide Drain, Stream, Frame, ReadRun, SelfCopy, Zeros, StrLen;
    var u := ReadRun(schedule, BUFFER_LENGTH - |carry|, |incoming|, false);
    var n := |carry| + u.moved;
    var after := Zeros(BUFFER_LENGTH - n);
    assert Filled(carry, incoming[..u.moved]) == Stream(ms) + Frame(cut)[..t] + after;
    assert Stream(ms) + Frame(cut)[..t] + after == CutStream(ms, cut, t, after);
    DrainExact(ms, cut, t, after);
    assert printed + ms + [] == printed + ms;
    if t >= HEADER_SIZE {
      assert printed + (ms + [cut[..t - HEADER_SIZE]]) == printed + ms + [cut[..t - HEADER_SIZE]];
    }
  }

  /** The stream ends t bytes into a header: read_string prints the whole frames, and returns the total, t included,
      unless the next read fails or never returns. */
  lemma EndsInHeader(carry: seq<byte>, incoming: seq<byte>, schedule: seq<Outcome>, total: int,
                     printed: seq<seq<byte>>, ms: seq<seq<byte>>, cut: seq<byte>, t: nat)
    requires |carry| <= BUFFER_LENGTH && AllSendable(ms) && Sendable(cut) && 0 < t < HEADER_SIZE
    requires carry + incoming == Stream(ms) + Frame(cut)[..t]
    requires var u := ReadRun(schedule, BUFFER_LENGTH - |carry|, |incoming|, false);
             u.verdict == Finished && u.moved == |incoming| > 0
    ensures var rest := ReadRun(schedule, BUFFER_LENGTH - |carry|, |incoming|, false).rest;
            Rounds(carry, incoming, schedule, total, printed) ==
            if rest == [] then Reading(printed + ms, Waiting, [], [])
            else Reading(printed + ms, if rest[0] == Failed then Ret(-1) else Ret(total + t), [], rest[1..])
  {
    var u := ReadRun(schedule, BUFFER_LENGTH - |carry|, |incoming|, false);
    hide Rounds, ReadRun, Stream, Frame, SelfCopy, Filled;
    assert incoming[..u.moved] == incoming && incoming[u.moved..] == [];
    RoundOnStream(carry, incoming, schedule, total, printed, ms, cut, t);
    AtEndOfFile(SelfCopy(Filled(carry, incoming), t), u.rest, total + t, printed + ms);
  }

  /** After a round that left something over, read_string no longer returns 0. */
  lemma {:induction false} TotalGrows(carry: seq<byte>, incoming: seq<byte>, schedule: seq<Outcome>, total: nat,
                                      printed: seq<seq<byte>>)
    requires |carry| <= BUFFER_LENGTH
    ensures var end := Rounds(carry, incoming, schedule, total, printed).end;
            end.Ret? ==> end.value == -1 || end.value >= total
    decreases |incoming|
  {
    hide Drain, ReadRun, SelfCopy, Filled;
    var t := ReadRun(schedule, BUFFER_LENGTH - |carry|, |incoming|, false);
    if t.verdict == Finished && t.moved > 0 {
      var mem := Filled(carry, incoming[..t.moved]);
      var d := Drain(mem, 0, |carry| + t.moved, []);
      if d.end.Rest? && d.end.count > 0 {
        TotalGrows(SelfCopy(mem, d.end.count), incoming[t.moved..], t.rest, total + d.end.count, printed + d.messages);
      }
    }
  }

  /** Where the first n bytes of a stream are cut. */
  lemma CutAt(ms: seq<seq<byte>>, n: nat) returns (k: nat, cut: seq<byte>, left: nat)
    requires AllSendable(ms) && n <= WireLength(ms)
    ensures k <= |ms| && (k == |ms| <==> n == WireLength(ms)) && (k == |ms| ==> left == 0)
    ensures AllSendable(ms[..k]) && Sendable(cut) && left < |Frame(cut)|
    ensures Stream(ms[..k]) + Frame(cut)[..left] == Stream(ms)[..n]
  {
    hide Stream, Frame, WholeFrames, WireLength;
    k := WholeFrames(ms, n);
    StreamCut(ms, n);
    WholeStream(ms, n);
    left := n - WireLength(ms[..k]);
    if k == |ms| {
      cut := [];
      assert ms[..k] == ms;
      assert Stream(ms)[..n] == Stream(ms) == Stream(ms) + Frame(cut)[..0];
    } else {
      cut := ms[k];
    }
  }

  /** A first round that reads something of a stream prints all the messages and returns 0 exactly when it reads the
      whole stream. */
  lemma ReturnsZeroIffAll(ms: seq<seq<byte>>, wire: seq<byte>, schedule: seq<Outcome>)
    requires AllSendable(ms) && wire <= Stream(ms)
    requires var t := ReadRun(schedule, BUFFER_LENGTH, |wire|, false); t.verdict == Finished && t.moved > 0
    ensures var r := Rounds([], wire, schedule, 0, []);
            var t := ReadRun(schedule, BUFFER_LENGTH, |wire|, false);
            r.end == Ret(0) && r.printed == ms <==> t.moved == WireLength(ms)
  {
    hide *;
    var t := ReadRun(schedule, BUFFER_LENGTH, |wire|, false);
    assert [] + wire[..t.moved] == Stream(ms)[..t.moved];
    var k, cut, left := CutAt(ms, t.moved);
    RoundOnStream([], wire, schedule, 0, [], ms[..k], cut, left);
    assert [] + ms[..k] == ms[..k];
    assert ms[..k] == ms <==> k == |ms|;
    if 0 < left < HEADER_SIZE {
      TotalGrows(SelfCopy(Filled([], wire[..t.moved]), left), wire[t.moved..], t.rest, left, ms[..k]);
    }
  }

  /** End to end, for any messages and any schedules of short transfers, interrupts and failures: read_string prints
      exactly the messages that the write_string calls were given, in order, and returns 0, if and only if the
      sender completes, the frames fit the buffer, and readn returns after the kernel has supplied the whole stream
      without interrupting it. When readn fails it prints nothing and returns -1; when readn never returns, nor does
      it. */
  lemma EndToEnd(ms: seq<seq<byte>>, sending: seq<Outcome>, receiving: seq<Outcome>)
    requires AllSendable(ms)
    ensures var s := SendAll(ms, sending);
            var t := ReadRun(receiving, BUFFER_LENGTH, |s.wire|, false);
            var r := Rounds([], s.wire, receiving, 0, []);
            && (t.verdict == HardError ==> r.end == Ret(-1) && r.printed == [])
            && (t.verdict == Blocked ==> r.end == Waiting && r.printed == [])
            && (r.end == Ret(0) && r.printed == ms <==>
                && s.complete && WireLength(ms) <= BUFFER_LENGTH
                && t.verdict == Finished && Supply(receiving) >= WireLength(ms))
  {
    hide Drain, Stream, ReadRun, Filled, SelfCopy, Frame, Supply;
    var s := SendAll(ms, sending);
    SentIsStream(ms, sending);
    ReadnMeaning(receiving, BUFFER_LENGTH, |s.wire|);
    var t := ReadRun(receiving, BUFFER_LENGTH, |s.wire|, false);
    if t.verdict == Finished && t.moved > 0 {
      ReturnsZeroIffAll(ms, s.wire, receiving);
    } else {
      assert ms == [] <==> WireLength(ms) == 0;
    }
  }

  /** An interrupt that comes before the first byte is taken for the end of the stream: nothing is printed, 0 is
      returned, and everything stays unread. */
  lemma InterruptLosesAll(wire: seq<byte>, schedule: seq<Outcome>)
    requires schedule != [] && schedule[0] == Interrupted
    ensures Rounds([], wire, schedule, 0, []) == Reading([], Ret(0), wire, schedule[1..])
  {
    assert wire[0..] == wire;
  }

  // ----- frames of which only part of the header is in the buffer

  /** The low k bytes of v, for up to three. */
  function Low(v: nat, k: nat): (n: nat) {
    if k == 0 then 0 else if k == 1 then v % 256 else if k == 2 then v % 65536 else v % 16777216
  }

  /** The low bytes of a frame length that strncpy leaves in place: nothing after the first zero byte. */
  function Surviving(length: nat): (n: nat) {
    if length % 256 == 0 then 0 else if length / 256 % 256 == 0 then length % 256 else length
  }

  lemma LowTwo(v: nat)
    ensures v % 65536 == v % 256 + 256 * (v / 256 % 256)
  {
    var q := v / 256;
    var r, c := v % 256 + 256 * (q % 256), q / 256;
    assert q == 256 * c + q % 256;
    assert v == 65536 * c + r && 0 <= r < 65536;
  }

  lemma LowThree(v: nat)
    ensures v % 16777216 == v % 65536 + 65536 * (v / 65536 % 256)
  {
    var q := v / 65536;
    var r, c := v % 65536 + 65536 * (q % 256), q / 256;
    assert q == 256 * c + q % 256;
    assert v == 16777216 * c + r && 0 <= r < 16777216;
  }

  /** strncpy onto itself of up to three bytes of a word. */
  lemma SelfCopyWord(a: seq<byte>, k: nat)
    requires |a| == 4 && k <= 3
    ensures var b := SelfCopy(a, k);
            && (k > 0 ==> b[0] == a[0])
            && (k > 1 ==> b[1] == if a[0] == 0 then 0 else a[1])
            && (k > 2 ==> b[2] == if a[0] == 0 || a[1] == 0 then 0 else a[2])
  {
    assert StrLen(a, 1) == if a[1] == 0 then 0 else 1 + StrLen(a, 2);
    assert StrLen(a, 0) == if a[0] == 0 then 0 else 1 + StrLen(a, 1);
  }

  function Digit(v: nat, i: nat): (d: nat)
    requires i < 3
    ensures d < 256
  {
    if i == 0 then v % 256 else if i == 1 then v / 256 % 256 else v / 65536 % 256
  }

  lemma SurvivingDigits(n: nat)
    ensures var s := Surviving(n);
            && Digit(s, 0) == Digit(n, 0)
            && Digit(s, 1) == (if Digit(n, 0) == 0 then 0 else Digit(n, 1))
            && Digit(s, 2) == (if Digit(n, 0) == 0 || Digit(n, 1) == 0 then 0 else Digit(n, 2))
  {
  }

  lemma OnePlace(a: nat, x: nat, b: nat, y: nat, base: nat)
    requires base in {256, 65536} && a < base && b < base
    ensures a + base * x == b + base * y <==> a == b && x == y
  {
  }

  lemma ThreeDigits(v: nat)
    ensures v % 256 == Digit(v, 0) && v % 65536 == Digit(v, 0) + 256 * Digit(v, 1)
    ensures v % 16777216 == v % 65536 + 65536 * Digit(v, 2)
  {
    LowTwo(v);
    LowThree(v);
  }

  lemma SameDigits(s: nat, m: nat, k: nat)
    requires k <= 3
    ensures Low(s, k) == Low(m, k) <==> forall i :: 0 <= i < k ==> Digit(s, i) == Digit(m, i)
  {
    hide Digit;
    ThreeDigits(s);
    ThreeDigits(m);
    OnePlace(Digit(s, 0), Digit(s, 1), Digit(m, 0), Digit(m, 1), 256);
    OnePlace(s % 65536, Digit(s, 2), m % 65536, Digit(m, 2), 65536);
  }

  lemma WordDigits(v: nat)
    requires v < WORD_LIMIT
    ensures forall i :: 0 <= i < 3 ==> U32Le(v)[i] == Digit(v, i)
  {
  }

  /** The bytes of a length word after strncpy onto itself, against those of another length. */
  lemma LengthBytes(n: nat, m: nat, k: nat)
    requires n <= MAXIMUM_PACKET_LENGTH && m <= MAXIMUM_PACKET_LENGTH && k <= 3
    ensures SelfCopy(U32Le(n), k) == U32Le(m)[..k] <==> Low(Surviving(n), k) == Low(m, k)
  {
    hide Low, SelfCopy, Surviving, U32Le, Digit;
    WordDigits(n);
    WordDigits(m);
    SurvivingDigits(n);
    SameDigits(Surviving(n), m, k);
    SelfCopyWord(U32Le(n), k);
    var b, c := SelfCopy(U32Le(n), k), U32Le(m);
    assert b == c[..k] <==> forall i :: 0 <= i < k ==> b[i] == c[i];
    assert forall i :: 0 <= i < k ==> b[i] == Digit(Surviving(n), i);
  }

  lemma SelfCopyLocal(x: seq<byte>, y: seq<byte>, n: nat)
    requires n <= |x| && n <= |y| && x[..n] == y[..n]
    ensures SelfCopy(x, n) == SelfCopy(y, n)
  {
    hide StrLen;
    assert x[0..n] == x[..n] && y[0..n] == y[..n];
    StrLenLocal(x, 0, y, 0, n);
    var k := Min(StrLen(x, 0), n);
    assert x[..k] == x[..n][..k] && y[..k] == y[..n][..k];
  }

  lemma {:induction false} StrLenShift(c: byte, s: seq<byte>, i: nat)
    requires i <= |s|
    ensures StrLen([c] + s, i + 1) == StrLen(s, i)
    decreases |s| - i
  {
    if i < |s| {
      StrLenShift(c, s, i + 1);
    }
  }

  /** strncpy onto itself passes over leading bytes that are not NUL. */
  lemma {:induction false} SelfCopyAfter(m: seq<byte>, a: seq<byte>, k: nat)
    requires NulFree(m) && k <= |a|
    ensures SelfCopy(m + a, |m| + k) == m + SelfCopy(a, k)
  {
    if m == [] {
      assert m + a == a && m + SelfCopy(a, k) == SelfCopy(a, k);
    } else {
      var n, x := m[1..], m + a;
      SelfCopyAfter(n, a, k);
      assert x == [m[0]] + (n + a);
      StrLenShift(m[0], n + a, 0);
      assert SelfCopy(x, |m| + k) == [m[0]] + SelfCopy(n + a, |n| + k);
    }
  }

  lemma MagicBytes()
    ensures U32Le(MAGIC) == [0x22, 0x33, 0x44, 0x55]
  {
  }

  /** The cut lies within the magic, or the length bytes before it agree with those of the frame at the front of the
      buffer, of which strncpy drops what follows a zero byte. */
  predicate CarriesOver(ms: seq<seq<byte>>, cut: seq<byte>, t: nat)
    requires t < HEADER_SIZE
  {
    var first := if ms == [] then cut else ms[0];
    t <= 4 || Low(Surviving(|first| + MESSAGE_SIZE), t - 4) == Low(|cut| + MESSAGE_SIZE, t - 4)
  }

  lemma SendableLength(ms: seq<seq<byte>>, cut: seq<byte>)
    requires AllSendable(ms) && Sendable(cut)
    ensures |cut| + MESSAGE_SIZE <= MAXIMUM_PACKET_LENGTH
    ensures ms != [] ==> |ms[0]| + MESSAGE_SIZE <= MAXIMUM_PACKET_LENGTH
  {
  }

  /** The front of the buffer and the cut header, by their two words. */
  lemma CutHead(ms: seq<seq<byte>>, cut: seq<byte>, t: nat, after: seq<byte>)
    requires AllSendable(ms) && Sendable(cut) && t < HEADER_SIZE
    ensures var first := if ms == [] then cut else ms[0];
            && |first| + MESSAGE_SIZE < WORD_LIMIT && |cut| + MESSAGE_SIZE < WORD_LIMIT && t < |Frame(cut)|
            && CutStream(ms, cut, t, after)[..t] == (U32Le(MAGIC) + U32Le(|first| + MESSAGE_SIZE))[..t]
            && Frame(cut)[..t] == (U32Le(MAGIC) + U32Le(|cut| + MESSAGE_SIZE))[..t]
  {
    hide U32Le;
    var first := if ms == [] then cut else ms[0];
    assert Frame(first)[..8] == U32Le(MAGIC) + U32Le(|first| + MESSAGE_SIZE);
    assert CutStream(ms, cut, t, after)[..t] == Frame(first)[..8][..t];
  }

  /** strncpy of a header onto itself, word by word. */
  lemma HeaderCopy(a: seq<byte>, c: seq<byte>, t: nat)
    requires |a| == |c| == 4 && t < HEADER_SIZE
    ensures SelfCopy(U32Le(MAGIC) + a, t) == (U32Le(MAGIC) + c)[..t] <==>
            t <= 4 || SelfCopy(a, t - 4) == c[..t - 4]
  {
    hide SelfCopy, U32Le, StrLen;
    var magic := U32Le(MAGIC);
    MagicBytes();
    if t <= 4 {
      assert (magic + a)[..t] == magic[..t] == magic[..t] + [];
      SelfCopyLocal(magic + a, magic[..t] + [], t);
      SelfCopyAfter(magic[..t], [], 0);
      assert SelfCopy([], 0) == [];
      assert magic[..t] == (magic + c)[..t];
    } else {
      var k := t - 4;
      SelfCopyAfter(magic, a, k);
      assert (magic + c)[..t] == magic + c[..k];
      assert (magic + SelfCopy(a, k))[4..] == SelfCopy(a, k) && (magic + c[..k])[4..] == c[..k];
    }
  }

  /** A stream cut t bytes into a header. read_string should carry those t bytes into its next round; it carries the
      first t bytes of the buffer instead. The two agree exactly under that condition. */
  lemma CarryExact(ms: seq<seq<byte>>, cut: seq<byte>, t: nat, after: seq<byte>)
    requires AllSendable(ms) && Sendable(cut) && t < HEADER_SIZE
    ensures SelfCopy(CutStream(ms, cut, t, after), t) == Frame(cut)[..t] <==> CarriesOver(ms, cut, t)
  {
    hide SelfCopy, U32Le, Surviving, Low, CutStream, Frame, StrLen, AllSendable, Sendable;
    var first := if ms == [] then cut else ms[0];
    CutHead(ms, cut, t, after);
    var a, c := U32Le(|first| + MESSAGE_SIZE), U32Le(|cut| + MESSAGE_SIZE);
    SelfCopyLocal(CutStream(ms, cut, t, after), U32Le(MAGIC) + a, t);
    HeaderCopy(a, c, t);
    if t > 4 {
      SendableLength(ms, cut);
      LengthBytes(|first| + MESSAGE_SIZE, |cut| + MESSAGE_SIZE, t - 4);
    }
  }

  // ----- streams longer than the buffer

  /** The rounds of read_string on the stream of ms, of which carry is already in the buffer: each readn returns
      bytes, and stops inside a header whose bytes are carried over, until one stops at the end of the stream. */
  predicate Carried(carry: seq<byte>, incoming: seq<byte>, schedule: seq<Outcome>, ms: seq<seq<byte>>)
    requires |carry| <= BUFFER_LENGTH && AllSendable(ms)
    decreases |incoming|
  {
    var u := ReadRun(schedule, BUFFER_LENGTH - |carry|, |incoming|, false);
    var n := |carry| + u.moved;
    var k := WholeFrames(ms, n);
    u.verdict == Finished && u.moved > 0 && WireLength(ms[..k]) <= n &&
    var left := n - WireLength(ms[..k]);
    if left == 0 then k == |ms|
    else
      && k < |ms| && left < HEADER_SIZE && CarriesOver(ms[..k], ms[k], left)
      && Carried(Frame(ms[k])[..left], incoming[u.moved..], u.rest, ms[k..])
  }

  lemma CountsWithin(schedule: seq<Outcome>, n: nat, available: nat)
    ensures var u := ReadRun(schedule, n, available, false); u.moved <= n && u.moved <= available
  {
  }

  /** Where the next m items of a sequence go when it is cut into front, head and what follows. */
  lemma SplitAt<T>(carry: seq<T>, incoming: seq<T>, m: nat, s: seq<T>, front: seq<T>, head: seq<T>, back: seq<T>)
    requires carry + incoming <= s && m <= |incoming|
    requires s[..|carry| + m] == front + head && s == front + back
    ensures carry + incoming[..m] == front + head && head + incoming[m..] <= back
  {
    var n := |carry| + m;
    assert (carry + incoming)[..n] == carry + incoming[..m];
    assert (carry + incoming)[n..] == incoming[m..];
    assert back == s[|front|..];
    assert s[|front|..n] == head;
    assert s[n..|carry| + |incoming|] == incoming[m..];
    assert back[..|head| + |incoming| - m] == head + incoming[m..];
  }

  lemma FrameBounds(ms: seq<seq<byte>>, k: nat)
    requires AllSendable(ms) && k < |ms|
    ensures AllSendable(ms[..k]) && AllSendable(ms[k..]) && Sendable(ms[k]) && |Frame(ms[k])| >= HEADER_SIZE
    ensures |Stream(ms[..k])| == WireLength(ms[..k])
  {
  }

  lemma FilledIsCut(carry: seq<byte>, data: seq<byte>, ms: seq<seq<byte>>, cut: seq<byte>, t: nat)
    requires AllSendable(ms) && Sendable(cut) && t < |Frame(cut)| && |carry| + |data| <= BUFFER_LENGTH
    requires carry + data == Stream(ms) + Frame(cut)[..t]
    ensures Filled(carry, data) == CutStream(ms, cut, t, Zeros(BUFFER_LENGTH - |carry| - |data|))
  {
    hide Stream, Frame, Zeros;
  }

  lemma StreamSplit(ms: seq<seq<byte>>, k: nat)
    requires k <= |ms| && AllSendable(ms) && AllSendable(ms[..k]) && AllSendable(ms[k..])
    ensures Stream(ms) == Stream(ms[..k]) + Stream(ms[k..])
  {
    hide *;
    assert ms == ms[..k] + ms[k..];
    StreamOfConcat(ms[..k], ms[k..]);
  }

  /** How the next m bytes divide the stream. */
  lemma SplitRound(carry: seq<byte>, incoming: seq<byte>, m: nat, ms: seq<seq<byte>>, k: nat, left: int)
    requires AllSendable(ms) && carry + incoming <= Stream(ms) && m <= |incoming|
    requires k == WholeFrames(ms, |carry| + m) && left == |carry| + m - WireLength(ms[..k])
    ensures 0 <= left && (k == |ms| ==> left == 0)
    ensures k < |ms| ==>
              && AllSendable(ms[..k]) && AllSendable(ms[k..]) && Sendable(ms[k])
              && HEADER_SIZE <= |Frame(ms[k])| && left < |Frame(ms[k])|
              && carry + incoming[..m] == Stream(ms[..k]) + Frame(ms[k])[..left]
              && Frame(ms[k])[..left] + incoming[m..] <= Stream(ms[k..])
  {
    hide *;
    StreamCut(ms, |carry| + m);
    if k < |ms| {
      FrameBounds(ms, k);
      StreamSplit(ms, k);
      SplitAt(carry, incoming, m, Stream(ms), Stream(ms[..k]), Frame(ms[k])[..left], Stream(ms[k..]));
    }
  }

  /** One such round that does not end the stream. */
  lemma CarriedRound(carry: seq<byte>, incoming: seq<byte>, schedule: seq<Outcome>, total: nat,
                     printed: seq<seq<byte>>, ms: seq<seq<byte>>, k: nat, left: nat)
    requires |carry| <= BUFFER_LENGTH && AllSendable(ms) && carry + incoming <= Stream(ms)
    requires k < |ms| && 0 < left < HEADER_SIZE && CarriesOver(ms[..k], ms[k], left)
    requires var u := ReadRun(schedule, BUFFER_LENGTH - |carry|, |incoming|, false);
             && u.verdict == Finished && u.moved > 0
             && k == WholeFrames(ms, |carry| + u.moved) && WireLength(ms[..k]) + left == |carry| + u.moved
    ensures var u := ReadRun(schedule, BUFFER_LENGTH - |carry|, |incoming|, false);
            && Sendable(ms[k]) && |Frame(ms[k])| >= HEADER_SIZE
            && AllSendable(ms[k..]) && Frame(ms[k])[..left] + incoming[u.moved..] <= Stream(ms[k..])
            && Rounds(carry, incoming, schedule, total, printed)
               == Rounds(Frame(ms[k])[..left], incoming[u.moved..], u.rest, total + left, printed + ms[..k])
  {
    hide *;
    var u := ReadRun(schedule, BUFFER_LENGTH - |carry|, |incoming|, false);
    CountsWithin(schedule, BUFFER_LENGTH - |carry|, |incoming|);
    SplitRound(carry, incoming, u.moved, ms, k, left);
    RoundOnStream(carry, incoming, schedule, total, printed, ms[..k], ms[k], left);
    FilledIsCut(carry, incoming[..u.moved], ms[..k], ms[k], left);
    CarryExact(ms[..k], ms[k], left, Zeros(BUFFER_LENGTH - |carry| - u.moved));
  }

  lemma EmptyFrame()
    ensures Sendable([]) && |Frame([])| > 0
  {
  }

  /** The round that ends it. */
  lemma LastRound(carry: seq<byte>, incoming: seq<byte>, schedule: seq<Outcome>, total: nat,
                  printed: seq<seq<byte>>, ms: seq<seq<byte>>)
    requires |carry| <= BUFFER_LENGTH && AllSendable(ms) && carry + incoming <= Stream(ms)
    requires var u := ReadRun(schedule, BUFFER_LENGTH - |carry|, |incoming|, false);
             && u.verdict == Finished && u.moved > 0
             && ms[..WholeFrames(ms, |carry| + u.moved)] == ms && WireLength(ms) == |carry| + u.moved
    ensures var r := Rounds(carry, incoming, schedule, total, printed);
            r.end == Ret(total) && r.printed == printed + ms
  {
    hide *;
    var u := ReadRun(schedule, BUFFER_LENGTH - |carry|, |incoming|, false);
    CountsWithin(schedule, BUFFER_LENGTH - |carry|, |incoming|);
    EmptyFrame();
    assert Stream(ms) + Frame([])[..0] == Stream(ms);
    SplitAt(carry, incoming, u.moved, Stream(ms), Stream(ms), [], []);
    RoundOnStream(carry, incoming, schedule, total, printed, ms, [], 0);
  }

  /** What the rounds of such a schedule leave over, in all. */
  function Leftovers(carry: seq<byte>, incoming: seq<byte>, schedule: seq<Outcome>, ms: seq<seq<byte>>): (n: nat)
    requires |carry| <= BUFFER_LENGTH && AllSendable(ms) && Carried(carry, incoming, schedule, ms)
    decreases |incoming|
  {
    var u := ReadRun(schedule, BUFFER_LENGTH - |carry|, |incoming|, false);
    var k := WholeFrames(ms, |carry| + u.moved);
    var left := |carry| + u.moved - WireLength(ms[..k]);
    if left == 0 then 0
    else left + Leftovers(Frame(ms[k])[..left], incoming[u.moved..], u.rest, ms[k..])
  }

  /** Any stream, however long, under such a schedule: read_string prints all the messages in order, and returns the
      sum of what the rounds left over. */
  lemma {:induction false} LongDelivery(carry: seq<byte>, incoming: seq<byte>, schedule: seq<Outcome>, total: nat,
                                        printed: seq<seq<byte>>, ms: seq<seq<byte>>)
    requires |carry| <= BUFFER_LENGTH && AllSendable(ms) && carry + incoming <= Stream(ms)
    requires Carried(carry, incoming, schedule, ms)
    ensures var r := Rounds(carry, incoming, schedule, total, printed);
            r.end == Ret(total + Leftovers(carry, incoming, schedule, ms)) && r.printed == printed + ms
    decreases |incoming|
  {
    hide Rounds, CarriesOver, Stream, ReadRun, WholeFrames, WireLength, Frame, Sendable, AllSendable;
    var u := ReadRun(schedule, BUFFER_LENGTH - |carry|, |incoming|, false);
    var n := |carry| + u.moved;
    var k := WholeFrames(ms, n);
    var left := n - WireLength(ms[..k]);
    if left == 0 {
      LastRound(carry, incoming, schedule, total, printed, ms);
    } else {
      CarriedRound(carry, incoming, schedule, total, printed, ms, k, left);
      LongDelivery(Frame(ms[k])[..left], incoming[u.moved..], u.rest, total + left, printed + ms[..k], ms[k..]);
      assert printed + ms[..k] + ms[k..] == printed + ms;
    }
  }

  /** Every header cut on the way has its bytes carried over rightly. */
  predicate RightlyCarried(carry: seq<byte>, incoming: seq<byte>, schedule: seq<Outcome>, ms: seq<seq<byte>>)
    requires |carry| <= BUFFER_LENGTH && AllSendable(ms)
    decreases |incoming|
  {
    var u := ReadRun(schedule, BUFFER_LENGTH - |carry|, |incoming|, false);
    var n := |carry| + u.moved;
    var k := WholeFrames(ms, n);
    var left := n - WireLength(ms[..k]);
    u.verdict == Finished && u.moved > 0 && 0 < left < HEADER_SIZE && k < |ms| ==>
      && CarriesOver(ms[..k], ms[k], left)
      && RightlyCarried(Frame(ms[k])[..left], incoming[u.moved..], u.rest, ms[k..])
  }

  lemma HeaderFirst()
    ensures 0 < HEADER_SIZE
  {
  }

  lemma NothingPrinted(carry: seq<byte>, incoming: seq<byte>, schedule: seq<Outcome>, total: nat,
                       printed: seq<seq<byte>>)
    requires |carry| <= BUFFER_LENGTH
    requires var u := ReadRun(schedule, BUFFER_LENGTH - |carry|, |incoming|, false);
             !(u.verdict == Finished && u.moved > 0)
    ensures Rounds(carry, incoming, schedule, total, printed).printed == printed
  {
  }

  /** A round that neither ends the stream nor stops inside a header: read_string returns without all the messages,
      or never. */
  lemma StopsShort(carry: seq<byte>, incoming: seq<byte>, schedule: seq<Outcome>, total: nat,
                   printed: seq<seq<byte>>, ms: seq<seq<byte>>, k: nat, left: int)
    requires |carry| <= BUFFER_LENGTH && AllSendable(ms) && ms != [] && carry + incoming <= Stream(ms)
    requires var u := ReadRun(schedule, BUFFER_LENGTH - |carry|, |incoming|, false);
             && k == WholeFrames(ms, |carry| + u.moved) && left == |carry| + u.moved - WireLength(ms[..k])
             && !(u.verdict == Finished && u.moved > 0 && (if left == 0 then k == |ms| else left < HEADER_SIZE))
    ensures var r := Rounds(carry, incoming, schedule, total, printed); !(r.end.Ret? && r.printed == printed + ms)
  {
    hide *;
    var u := ReadRun(schedule, BUFFER_LENGTH - |carry|, |incoming|, false);
    CountsWithin(schedule, BUFFER_LENGTH - |carry|, |incoming|);
    if u.verdict == Finished && u.moved > 0 {
      SplitRound(carry, incoming, u.moved, ms, k, left);
      RoundOnStream(carry, incoming, schedule, total, printed, ms[..k], ms[k], left);
      HeaderFirst();
      assert |printed + ms[..k]| < |printed + ms|;
    } else {
      NothingPrinted(carry, incoming, schedule, total, printed);
      assert |printed| < |printed + ms|;
    }
  }

  /** So, as long as no header's bytes are carried over wrongly, such a schedule is also necessary. */
  lemma {:induction false} LongDeliveryIff(carry: seq<byte>, incoming: seq<byte>, schedule: seq<Outcome>, total: nat,
                                           printed: seq<seq<byte>>, ms: seq<seq<byte>>)
    requires |carry| <= BUFFER_LENGTH && AllSendable(ms) && ms != [] && carry + incoming <= Stream(ms)
    requires RightlyCarried(carry, incoming, schedule, ms)
    ensures var r := Rounds(carry, incoming, schedule, total, printed);
            r.end.Ret? && r.printed == printed + ms <==> Carried(carry, incoming, schedule, ms)
    decreases |incoming|
  {
    hide Rounds, CarriesOver, Stream, ReadRun, WholeFrames, WireLength, Frame, Sendable, AllSendable;
    var u := ReadRun(schedule, BUFFER_LENGTH - |carry|, |incoming|, false);
    var n := |carry| + u.moved;
    var k := WholeFrames(ms, n);
    var left := n - WireLength(ms[..k]);
    CountsWithin(schedule, BUFFER_LENGTH - |carry|, |incoming|);
    SplitRound(carry, incoming, u.moved, ms, k, left);
    if Carried(carry, incoming, schedule, ms) {
      LongDelivery(carry, incoming, schedule, total, printed, ms);
    } else if u.verdict == Finished && u.moved > 0 && 0 < left < HEADER_SIZE {
      CarriedRound(carry, incoming, schedule, total, printed, ms, k, left);
      LongDeliveryIff(Frame(ms[k])[..left], incoming[u.moved..], u.rest, total + left, printed + ms[..k], ms[k..]);
      assert printed + ms[..k] + ms[k..] == printed + ms;
    } else {
      StopsShort(carry, incoming, schedule, total, printed, ms, k, left);
    }
  }
}
