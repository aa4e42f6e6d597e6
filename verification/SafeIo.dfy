/** sample_io/test_file.cpp: writen and readn over a kernel whose answers are a finite schedule.
    Write and Read follow the write() and read() pages of POSIX.1-2017. */
module SafeIo {
  import opened Bytes

  /** What the kernel does with one call: transfer up to k bytes, interrupt it (EINTR), or fail it. */
  datatype Outcome = Moved(k: nat) | Interrupted | Failed

  /** What the caller sees; NoAnswer stands for a call the schedule never lets return. */
  datatype SysCall = Count(n: nat) | Eintr | Error | NoAnswer

  datatype Verdict = Finished | HardError | Blocked

  /** A whole writen or readn: bytes moved, how it ended, and the schedule that is left. */
  datatype Transfer = Transfer(moved: nat, verdict: Verdict, rest: seq<Outcome>)

  /** The value a call of writen or readn returns, if it returns. */
  datatype Return = Returned(n: int) | Pending

  function SysWrite(o: Outcome, n: nat): (r: SysCall) {
    match o
    case Moved(k) => Count(Min(k, n))
    case Interrupted => Eintr
    case Failed => Error
  }

  /** read() answers 0 only at end of file, that is with no byte available. */
  function SysRead(o: Outcome, n: nat, available: nat): (r: SysCall) {
    match o
    case Moved(k) => Count(Min(if k == 0 then 1 else k, Min(n, available)))
    case Interrupted => Eintr
    case Failed => Error
  }

  class Socket {
    var outgoing: seq<byte>      // bytes the kernel has accepted from us
    var incoming: seq<byte>      // bytes the peer sends before it closes, not yet read
    var schedule: seq<Outcome>

    method Write(data: seq<byte>) returns (r: SysCall)
      modifies this
      ensures incoming == old(incoming)
      ensures if old(schedule) == [] then r == NoAnswer && schedule == []
              else r == SysWrite(old(schedule)[0], |data|) && schedule == old(schedule)[1..]
      ensures r.Count? ==> r.n <= |data|
      ensures outgoing == old(outgoing) + (if r.Count? then data[..r.n] else [])
    {
      if schedule == [] {
        return NoAnswer;
      }
      r := SysWrite(schedule[0], |data|);
      schedule := schedule[1..];
      if r.Count? {
        outgoing := outgoing + data[..r.n];
      }
    }

    method Read(buf: array<byte>, at: nat, n: nat) returns (r: SysCall)
      requires at + n <= buf.Length
      modifies this, buf
      ensures outgoing == old(outgoing)
      ensures if old(schedule) == [] then r == NoAnswer && schedule == []
              else r == SysRead(old(schedule)[0], n, |old(incoming)|) && schedule == old(schedule)[1..]
      ensures var k := if r.Count? then r.n else 0;
              && k <= n && k <= |old(incoming)|
              && incoming == old(incoming)[k..]
              && (forall i :: at <= i < at + k ==> buf[i] == old(incoming)[i - at])
              && (forall i :: 0 <= i < at || at + k <= i < buf.Length ==> buf[i] == old(buf[i]))
    {
      if schedule == [] {
        return NoAnswer;
      }
      r := SysRead(schedule[0], n, |incoming|);
      schedule := schedule[1..];
      if r.Count? {
        var data := incoming[..r.n];
        CopyIn(buf, at, data);
        assert forall i :: 0 <= i < buf.Length ==> buf[i] == buf[..][i];
        incoming := incoming[r.n..];
      }
    }
  }

  /** The transfers writen makes, call by call. */
  function WriteRun(schedule: seq<Outcome>, nleft: nat): (t: Transfer)
    ensures t.moved <= nleft
    ensures t.verdict == Finished <==> t.moved == nleft
  {
    if nleft == 0 then Transfer(0, Finished, schedule)
    else if schedule == [] then Transfer(0, Blocked, [])
    else match SysWrite(schedule[0], nleft)
      case Count(n) =>
        if n == 0 then Transfer(0, HardError, schedule[1..])
        else var t := WriteRun(schedule[1..], nleft - n); t.(moved := n + t.moved)
      case Eintr => WriteRun(schedule[1..], nleft)
      case _ => Transfer(0, HardError, schedule[1..])
  }

  /** The transfers readn makes while available bytes are still to come before end of file. retry says whether an
      interrupted call is made again: the source as written does not, since it sets nreadn to 0 and then takes 0
      for end of file; the intended loop, like that of writen, does. */
  function ReadRun(schedule: seq<Outcome>, nleft: nat, available: nat, retry: bool): (t: Transfer)
    ensures t.moved <= nleft && t.moved <= available
    ensures t.moved == nleft ==> t.verdict == Finished
    ensures retry && t.verdict == Finished ==> t.moved == Min(nleft, available)
    ensures t.verdict == HardError ==> Failed in schedule
  {
    if nleft == 0 then Transfer(0, Finished, schedule)
    else if schedule == [] then Transfer(0, Blocked, [])
    else match SysRead(schedule[0], nleft, available)
      case Count(n) =>
        if n == 0 then Transfer(0, Finished, schedule[1..])
        else var t := ReadRun(schedule[1..], nleft - n, available - n, retry); t.(moved := n + t.moved)
      case Eintr =>
        if retry then ReadRun(schedule[1..], nleft, available, retry) else Transfer(0, Finished, schedule[1..])
      case _ => Transfer(0, HardError, schedule[1..])
  }

  lemma WriteOnce(schedule: seq<Outcome>, nleft: nat)
    ensures schedule != [] ==> SysWrite(schedule[0], nleft) != NoAnswer
    ensures WriteRun(schedule, nleft) ==
            if nleft == 0 then Transfer(0, Finished, schedule)
            else if schedule == [] then Transfer(0, Blocked, [])
            else match SysWrite(schedule[0], nleft)
              case Count(n) =>
                if n == 0 then Transfer(0, HardError, schedule[1..])
                else var t := WriteRun(schedule[1..], nleft - n); t.(moved := n + t.moved)
              case Eintr => WriteRun(schedule[1..], nleft)
              case _ => Transfer(0, HardError, schedule[1..])
  {
  }

  lemma ReadOnce(schedule: seq<Outcome>, nleft: nat, available: nat, retry: bool)
    ensures schedule != [] ==> SysRead(schedule[0], nleft, available) != NoAnswer
    ensures ReadRun(schedule, nleft, available, retry) ==
            if nleft == 0 then Transfer(0, Finished, schedule)
            else if schedule == [] then Transfer(0, Blocked, [])
            else match SysRead(schedule[0], nleft, available)
              case Count(n) =>
                if n == 0 then Transfer(0, Finished, schedule[1..])
                else var t := ReadRun(schedule[1..], nleft - n, available - n, retry); t.(moved := n + t.moved)
              case Eintr =>
                if retry then ReadRun(schedule[1..], nleft, available, retry) else Transfer(0, Finished, schedule[1..])
              case _ => Transfer(0, HardError, schedule[1..])
  {
  }

  method Writen(s: Socket, vptr: array<byte>, n: nat) returns (r: Return)
    requires n <= vptr.Length
    modifies s
    ensures var t := WriteRun(old(s.schedule), n);
            && s.outgoing == old(s.outgoing) + vptr[..t.moved]
            && s.schedule == t.rest && s.incoming == old(s.incoming)
            && r == match t.verdict
                    case Finished => Returned(n)
                    case HardError => Returned(-1)
                    case Blocked => Pending
  {
    hide *;
    var nleft: nat, nptr: nat := n, 0;
    ghost var data, sent := vptr[..n], s.outgoing;
    ghost var t := WriteRun(s.schedule, n);
    while nleft > 0
      invariant nptr + nleft == n
      invariant s.incoming == old(s.incoming)
      invariant s.outgoing == sent + data[..nptr]
      invariant t == var u := WriteRun(s.schedule, nleft); u.(moved := nptr + u.moved)
      decreases |s.schedule|
    {
      WriteOnce(s.schedule, nleft);
      var nwriten := s.Write(vptr[nptr..n]);
      match nwriten {
        case Count(k) =>
          if k == 0 {
            return Returned(-1);
          }
          assert data[..nptr + k] == data[..nptr] + vptr[nptr..n][..k];
          nleft, nptr := nleft - k, nptr + k;
        case Eintr =>
        case Error => return Returned(-1);
        case NoAnswer => return Pending;
      }
    }
    WriteOnce(s.schedule, 0);
    return Returned(n);
  }

  /** readn: as written with retry == false, as intended with retry == true. */
  method Readn(s: Socket, buf: array<byte>, at: nat, n: nat, retry: bool) returns (r: Return)
    requires at + n <= buf.Length
    modifies s, buf
    ensures var t := ReadRun(old(s.schedule), n, |old(s.incoming)|, retry);
            && s.outgoing == old(s.outgoing) && s.schedule == t.rest
            && s.incoming == old(s.incoming)[t.moved..]
            && (forall i :: at <= i < at + t.moved ==> buf[i] == old(s.incoming)[i - at])
            && (forall i :: 0 <= i < at || at + t.moved <= i < buf.Length ==> buf[i] == old(buf[i]))
            && r == match t.verdict
                    case Finished => Returned(t.moved)
                    case HardError => Returned(-1)
                    case Blocked => Pending
  {
    hide *;
    var nleft: nat, ptr: nat := n, at;
    ghost var t := ReadRun(s.schedule, n, |s.incoming|, retry);
    ghost var stream := s.incoming;
    while nleft > 0
      invariant at <= ptr && ptr + nleft == at + n && ptr - at <= |stream|
      invariant s.outgoing == old(s.outgoing)
      invariant s.incoming == stream[ptr - at..]
      invariant forall i :: at <= i < ptr ==> buf[i] == stream[i - at]
      invariant forall i :: 0 <= i < at || ptr <= i < buf.Length ==> buf[i] == old(buf[i])
      invariant t == var u := ReadRun(s.schedule, nleft, |s.incoming|, retry); u.(moved := ptr - at + u.moved)
      decreases |s.schedule|
    {
      ReadOnce(s.schedule, nleft, |s.incoming|, retry);
      var nreadn := s.Read(buf, ptr, nleft);
      match nreadn {
        case Count(k) =>
          if k == 0 {
            break;
          }
          nleft, ptr := nleft - k, ptr + k;
        case Eintr =>
          if !retry {
            break;
          }
        case Error => return Returned(-1);
        case NoAnswer => return Pending;
      }
    }
    ReadOnce(s.schedule, nleft, |s.incoming|, retry);
    return Returned(n - nleft);
  }

  /** The bytes the kernel would take before its first refusal, however many are offered. */
  function Budget(schedule: seq<Outcome>): (n: nat) {
    if schedule == [] || schedule[0] == Failed || schedule[0] == Moved(0) then 0
    else (if schedule[0].Moved? then schedule[0].k else 0) + Budget(schedule[1..])
  }

  /** writen returns n exactly when the kernel would take n bytes before its first refusal; it reports an error
      exactly when a refusal comes earlier, after a proper prefix of Budget(schedule) bytes. */
  lemma {:induction false} WritenMeaning(schedule: seq<Outcome>, n: nat)
    ensures var t := WriteRun(schedule, n);
            && t.moved == Min(n, Budget(schedule))
            && (t.verdict == Finished <==> Budget(schedule) >= n)
            && (t.verdict == HardError <==>
                Budget(schedule) < n && (Failed in schedule || Moved(0) in schedule))
  {
    if n > 0 && schedule != [] {
      match SysWrite(schedule[0], n) {
        case Count(k) =>
          if 0 < k {
            WritenMeaning(schedule[1..], n - k);
          }
        case Eintr => WritenMeaning(schedule[1..], n);
        case _ =>
      }
    }
  }

  /** The bytes the kernel supplies before the first call that it interrupts or fails, and how that call makes
      readn end as written. */
  function Supply(schedule: seq<Outcome>): (n: nat) {
    if schedule == [] || !schedule[0].Moved? then 0
    else (if schedule[0].k == 0 then 1 else schedule[0].k) + Supply(schedule[1..])
  }

  function Stop(schedule: seq<Outcome>): (v: Verdict) {
    if schedule == [] then Blocked
    else match schedule[0]
      case Moved(_) => Stop(schedule[1..])
      case Interrupted => Finished
      case Failed => HardError
  }

  /** readn as written: it returns fewer bytes than asked for although more were still to come exactly when an
      interrupted call is what ends the supply. */
  lemma {:induction false} ReadnMeaning(schedule: seq<Outcome>, n: nat, available: nat)
    ensures var t := ReadRun(schedule, n, available, false);
            && t.moved == Min(Min(n, available), Supply(schedule))
            && (t.verdict == Finished && t.moved < Min(n, available) <==>
                Supply(schedule) < Min(n, available) && Stop(schedule) == Finished)
            && (t.verdict != Finished ==> t.verdict == Stop(schedule))
  {
    if n > 0 && schedule != [] && schedule[0].Moved? {
      match SysRead(schedule[0], n, available) {
        case Count(k) =>
          if k > 0 {
            ReadnMeaning(schedule[1..], n - k, available - k);
          }
        case _ =>
      }
    }
  }

  /** The calls that supply m bytes, or those before the first interrupt, failure or end of the schedule. */
  function ReadCalls(schedule: seq<Outcome>, m: nat): (c: nat)
    ensures c <= |schedule|
  {
    if m == 0 || schedule == [] || !schedule[0].Moved? then 0
    else 1 + ReadCalls(schedule[1..], m - Min(if schedule[0].k == 0 then 1 else schedule[0].k, m))
  }

  lemma NextCall(schedule: seq<Outcome>, n: nat, available: nat)
    requires n > 0 && available > 0 && schedule != [] && schedule[0].Moved?
    ensures var r := SysRead(schedule[0], n, available);
            && r.Count? && 0 < r.n <= n && r.n <= available
            && ReadCalls(schedule, Min(n, available)) == 1 + ReadCalls(schedule[1..], Min(n - r.n, available - r.n))
  {
  }

  lemma NoCall(schedule: seq<Outcome>, n: nat, available: nat)
    requires n == 0 || schedule == [] || !schedule[0].Moved? || available == 0
    ensures ReadCalls(schedule, Min(n, available)) == 0
    ensures n > 0 && schedule != [] ==>
              SysRead(schedule[0], n, available) ==
              match schedule[0] case Moved(_) => Count(0) case Interrupted => Eintr case Failed => Error
  {
  }

  /** Which answers readn takes, as written. It stops without a further call when it has what was asked for.
      Otherwise, at end of file too, it makes one more, whose answer decides: none at all, and it never returns; a
      failure, and it returns -1; any other, and it returns what it has. */
  lemma {:induction false} ReadnCalls(schedule: seq<Outcome>, n: nat, available: nat)
    ensures var t, c := ReadRun(schedule, n, available, false), ReadCalls(schedule, Min(n, available));
            if t.moved == n then t.verdict == Finished && t.rest == schedule[c..]
            else if c == |schedule| then t.verdict == Blocked && t.rest == []
            else t.rest == schedule[c + 1..] && t.verdict == if schedule[c] == Failed then HardError else Finished
  {
    hide *;
    ReadOnce(schedule, n, available, false);
    if n > 0 && schedule != [] && schedule[0].Moved? && available > 0 {
      NextCall(schedule, n, available);
      var k := SysRead(schedule[0], n, available).n;
      ReadnCalls(schedule[1..], n - k, available - k);
      var c := ReadCalls(schedule[1..], Min(n - k, available - k));
      assert schedule[1..][c..] == schedule[c + 1..];
      assert c < |schedule[1..]| ==> schedule[1..][c] == schedule[c + 1] && schedule[1..][c + 1..] == schedule[c + 2..];
    } else {
      NoCall(schedule, n, available);
    }
  }

  lemma CountFits(o: Outcome, n: nat, available: nat)
    ensures var r := SysRead(o, n, available);
            && (r.Count? ==> r.n <= n && r.n <= available && o != Failed)
            && (r == Eintr ==> o == Interrupted)
  {
  }

  /** The intended readn goes past interrupts, but never past a failure. */
  lemma {:induction false} ReadnFailure(schedule: seq<Outcome>, n: nat, available: nat)
    ensures var t := ReadRun(schedule, n, available, true);
            match t.verdict
            case Finished => Failed in t.rest <==> Failed in schedule
            case HardError => Failed in schedule
            case Blocked => Failed !in schedule && t.rest == []
  {
    hide ReadRun, Min;
    ReadOnce(schedule, n, available, true);
    if n > 0 && schedule != [] {
      assert schedule == [schedule[0]] + schedule[1..];
      match SysRead(schedule[0], n, available) {
        case Count(k) =>
          if k > 0 {
            CountFits(schedule[0], n, available);
            ReadnFailure(schedule[1..], n - k, available - k);
          }
        case Eintr => ReadnFailure(schedule[1..], n, available);
        case _ =>
      }
    }
  }

  /** The calls until n bytes are written, or the first that writes none and is not interrupted. */
  function WriteCalls(schedule: seq<Outcome>, n: nat): (c: nat)
    ensures c <= |schedule|
  {
    if n == 0 || schedule == [] || schedule[0] == Failed || schedule[0] == Moved(0) then 0
    else 1 + WriteCalls(schedule[1..], if schedule[0].Moved? then n - Min(schedule[0].k, n) else n)
  }

  /** Which answers writen takes: those, and the refusal when one comes first. */
  lemma {:induction false} WritenCalls(schedule: seq<Outcome>, n: nat)
    ensures var t, c := WriteRun(schedule, n), WriteCalls(schedule, n);
            if t.moved == n then t.rest == schedule[c..]
            else if c == |schedule| then t.verdict == Blocked && t.rest == []
            else t.verdict == HardError && t.rest == schedule[c + 1..] && schedule[c] in {Failed, Moved(0)}
  {
    if n > 0 && schedule != [] {
      match SysWrite(schedule[0], n) {
        case Count(k) =>
          if k > 0 {
            WritenCalls(schedule[1..], n - k);
          }
        case Eintr => WritenCalls(schedule[1..], n);
        case _ =>
      }
    }
  }

  /** How many calls the kernel answers with a count before it fails one. */
  function Answers(schedule: seq<Outcome>): (n: nat) {
    if schedule == [] || schedule[0] == Failed then 0
    else (if schedule[0].Moved? then 1 else 0) + Answers(schedule[1..])
  }

  /** The intended readn is certain to finish once the kernel answers often enough before any failure, and it uses
      up no more answers than the bytes it moves and, at end of file, one. */
  lemma {:induction false} ReadnFinishes(schedule: seq<Outcome>, n: nat, available: nat)
    requires Answers(schedule) > Min(n, available)
    ensures var t := ReadRun(schedule, n, available, true);
            && t.verdict == Finished
            && Answers(t.rest) >= Answers(schedule) - Min(n, available) - (if n > available then 1 else 0)
  {
    if n > 0 {
      match SysRead(schedule[0], n, available) {
        case Count(k) =>
          if k > 0 {
            ReadnFinishes(schedule[1..], n - k, available - k);
          }
        case Eintr => ReadnFinishes(schedule[1..], n, available);
        case _ =>
      }
    }
  }
}
