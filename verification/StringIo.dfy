/** write_string and read_string, sample_socket/test_server.cpp (and its copy in sample_client/test_client.cpp),
    exactly as written, over the writen and readn of SafeIo. */
module StringIo {
  import opened Bytes
  import opened Rpc
  import opened SafeIo
  import opened Parsing

  const BUFFER_LENGTH := 1024

  method WriteString(s: Socket, msg: seq<byte>) returns (r: Return)
    modifies s
    ensures s.incoming == old(s.incoming)
    ensures !Sendable(CStr(msg)) ==>
              r == Returned(0) && s.outgoing == old(s.outgoing) && s.schedule == old(s.schedule)
    ensures Sendable(CStr(msg)) ==>
              var f := Frame(CStr(msg));
              var t := WriteRun(old(s.schedule), |f|);
              && s.outgoing == old(s.outgoing) + f[..t.moved] && s.schedule == t.rest
              && r == match t.verdict
                      case Finished => Returned(|f|)
                      case HardError => Returned(-1)
                      case Blocked => Pending
  {
    var length := GetStringLength(msg);
    var buffer := new byte[length];
    var length2 := Serialize(buffer, msg);
    if length2 > 0 {
      assert buffer[..] == Frame(CStr(msg));
    }
    r := Writen(s, buffer, length2);
  }

  /** The front n bytes of b after strncpy(b, b, n): zeros from the first NUL on. */
  function SelfCopy(b: seq<byte>, n: nat): (c: seq<byte>)
    requires n <= |b|
    ensures |c| == n
  {
    var k := Min(StrLen(b, 0), n);
    b[..k] + Zeros(n - k)
  }

  /** strncpy(buffer, buffer, n). */
  method StrnCpySelf(a: array<byte>, n: nat)
    requires n <= a.Length
    modifies a
    ensures a[..] == SelfCopy(old(a[..]), n) + old(a[n..])
  {
    ghost var was := a[..];
    var i := 0;
    while i < n && a[i] != 0
      invariant 0 <= i <= n && a[..] == was
      invariant StrLen(was, 0) == i + StrLen(was, i)
    {
      a[i] := a[i];
      i := i + 1;
    }
    ghost var k := i;
    assert k == Min(StrLen(was, 0), n);
    while i < n
      invariant k <= i <= n
      invariant forall j :: k <= j < i ==> a[j] == 0
      invariant forall j :: 0 <= j < k || i <= j < a.Length ==> a[j] == was[j]
    {
      a[i] := 0;
      i := i + 1;
    }
  }

  /** How read_string ends: with a value, waiting inside readn, looping in parse for ever, or astray: parse left the
      buffer, or it returned a negative count, with which strncpy and memset write outside the buffer. */
  datatype ReadEnd = Ret(value: int) | Waiting | Looping | Astray

  datatype Reading = Reading(printed: seq<seq<byte>>, end: ReadEnd, unread: seq<byte>, rest: seq<Outcome>)

  /** The buffer after memset and readn: what was in use, what was read, zeros. */
  function Filled(carry: seq<byte>, data: seq<byte>): (mem: seq<byte>)
    requires |carry| + |data| <= BUFFER_LENGTH
    ensures |mem| == BUFFER_LENGTH
  {
    carry + data + Zeros(BUFFER_LENGTH - |carry| - |data|)
  }

  /** The rounds of read_string's do-while loop, from a buffer whose first |carry| bytes are in use. */
  function Rounds(carry: seq<byte>, incoming: seq<byte>, schedule: seq<Outcome>, total: int, printed: seq<seq<byte>>)
    : (r: Reading)
    requires |carry| <= BUFFER_LENGTH
    decreases |incoming|
  {
    var t := ReadRun(schedule, BUFFER_LENGTH - |carry|, |incoming|, false);
    var unread := incoming[t.moved..];
    if t.verdict == Blocked then Reading(printed, Waiting, unread, t.rest)
    else if t.verdict == HardError then Reading(printed, Ret(-1), unread, t.rest)
    else if t.moved == 0 then Reading(printed, Ret(total), unread, t.rest)
    else
      var mem := Filled(carry, incoming[..t.moved]);
      var d := Drain(mem, 0, |carry| + t.moved, []);
      if d.end.Endless? then Reading(printed + d.messages, Looping, unread, t.rest)
      else if d.end.Outside? || d.end.count < 0 then Reading(printed + d.messages, Astray, unread, t.rest)
      else if d.end.count == 0 then Reading(printed + d.messages, Ret(total), unread, t.rest)
      else Rounds(SelfCopy(mem, d.end.count), unread, t.rest, total + d.end.count, printed + d.messages)
  }

  lemma FilledIs(b: seq<byte>, carry: seq<byte>, data: seq<byte>)
    requires |b| == BUFFER_LENGTH && |carry| + |data| <= BUFFER_LENGTH && b[..|carry|] == carry
    requires b[|carry|..|carry| + |data|] == data
    requires forall i :: |carry| + |data| <= i < |b| ==> b[i] == 0
    ensures b == Filled(carry, data)
  {
  }

  /** memset and readn at the head of each round; retry selects the readn, false for the one as written. */
  method FillBuffer(s: Socket, buffer: array<byte>, used: nat, retry: bool) returns (count: Return)
    requires buffer.Length == BUFFER_LENGTH && used <= BUFFER_LENGTH
    modifies s, buffer
    ensures var t := ReadRun(old(s.schedule), BUFFER_LENGTH - used, |old(s.incoming)|, retry);
            && s.outgoing == old(s.outgoing) && s.schedule == t.rest && s.incoming == old(s.incoming)[t.moved..]
            && buffer[..] == Filled(old(buffer[..used]), old(s.incoming)[..t.moved])
            && count == match t.verdict
                        case Finished => Returned(t.moved)
                        case HardError => Returned(-1)
                        case Blocked => Pending
  {
    hide ReadRun, Filled;
    var room := BUFFER_LENGTH - used;
    ghost var carry := buffer[..used];
    ClearFrom(buffer, used);
    count := Readn(s, buffer, used, room, retry);
    ghost var data := old(s.incoming)[..ReadRun(old(s.schedule), room, |old(s.incoming)|, retry).moved];
    assert buffer[..used] == carry;
    assert buffer[used..used + |data|] == data;
    assert forall i :: used + |data| <= i < buffer.Length ==> buffer[i] == 0;
    FilledIs(buffer[..], carry, data);
  }

  method ReadString(s: Socket) returns (printed: seq<seq<byte>>, end: ReadEnd)
    modifies s
    ensures s.outgoing == old(s.outgoing)
    ensures Reading(printed, end, s.incoming, s.schedule) == Rounds([], old(s.incoming), old(s.schedule), 0, [])
  {
    hide ReadRun, Filled, SelfCopy, Drain, StrLen;
    var buffer := new byte[BUFFER_LENGTH];
    var countUsed := 0;
    var total := 0;
    printed := [];
    ghost var reading := Rounds([], s.incoming, s.schedule, 0, []);
    while true
      invariant 0 <= countUsed <= BUFFER_LENGTH
      invariant s.outgoing == old(s.outgoing)
      invariant reading == Rounds(buffer[..countUsed], s.incoming, s.schedule, total, printed)
      decreases |s.incoming|
    {
      ghost var carry, incoming := buffer[..countUsed], s.incoming;
      var count := FillBuffer(s, buffer, countUsed, false);
      if count == Returned(0) {
        return printed, Ret(total);
      }
      if count == Pending || count.n < 0 {
        return printed, if count == Pending then Waiting else Ret(-1);
      }
      countUsed := countUsed + count.n;
      assert countUsed <= BUFFER_LENGTH;  // so the length check that follows readn in the source never fires
      var texts, left := ParseBuffer(buffer, 0, countUsed);
      printed := printed + texts;
      if left == Endless {
        return printed, Looping;
      }
      if left == Outside || left.count < 0 {
        return printed, Astray;
      }
      ghost var mem := buffer[..];
      countUsed := left.count;
      StrnCpySelf(buffer, countUsed);
      assert buffer[..countUsed] == SelfCopy(mem, countUsed);
      total := total + countUsed;
      if countUsed == 0 {
        return printed, Ret(total);
      }
    }
  }
}
