/** The descriptor table of sample_socket/test_server.cpp: add_fd and del_fd, and the select loop that fills it.
    An entry that is not positive is a free slot. */
module SelectServer {
  import opened Bytes

  const TABLE_SIZE := 1024

  function FirstFree(t: seq<int>): (i: nat)
    ensures i <= |t| && (i < |t| ==> t[i] <= 0)
    ensures forall k :: 0 <= k < i ==> t[k] > 0
  {
    if t == [] || t[0] <= 0 then 0 else 1 + FirstFree(t[1..])
  }

  function FirstEqual(t: seq<int>, fd: int): (i: nat)
    ensures i <= |t| && (i < |t| ==> t[i] == fd)
    ensures forall k :: 0 <= k < i ==> t[k] != fd
  {
    if t == [] || t[0] == fd then 0 else 1 + FirstEqual(t[1..], fd)
  }

  function Added(t: seq<int>, fd: int): (u: seq<int>)
    ensures |u| == |t| && forall k :: 0 <= k < |t| ==> u[k] == if k == FirstFree(t) then fd else t[k]
  {
    var i := FirstFree(t);
    if i < |t| then t[i := fd] else t
  }

  function Deleted(t: seq<int>, fd: int): (u: seq<int>)
    ensures |u| == |t| && forall k :: 0 <= k < |t| ==> u[k] == if k == FirstEqual(t, fd) then -1 else t[k]
  {
    var i := FirstEqual(t, fd);
    if i < |t| then t[i := -1] else t
  }

  method AddFd(fd: int, table: array<int>, size: nat)
    requires size <= table.Length
    modifies table
    ensures table[..size] == Added(old(table[..size]), fd) && table[size..] == old(table[size..])
  {
    var i := 0;
    while i < size
      invariant 0 <= i <= size && forall k :: 0 <= k < i ==> table[k] > 0
      invariant table[..] == old(table[..])
    {
      if table[i] <= 0 {
        ghost var t := table[..size];
        assert FirstFree(t) == i;
        table[i] := fd;
        assert table[..size] == t[i := fd];
        break;
      }
      i := i + 1;
    }
  }

  method DelFd(fd: int, table: array<int>, size: nat)
    requires size <= table.Length
    modifies table
    ensures table[..size] == Deleted(old(table[..size]), fd) && table[size..] == old(table[size..])
  {
    var i := 0;
    while i < size
      invariant 0 <= i <= size && forall k :: 0 <= k < i ==> table[k] != fd
      invariant table[..] == old(table[..])
    {
      if table[i] == fd {
        ghost var t := table[..size];
        assert FirstEqual(t, fd) == i;
        table[i] := -1;
        assert table[..size] == t[i := -1];
        break;
      }
      i := i + 1;
    }
  }

  // ----- the table as a bounded set

  function Open(t: seq<int>): (u: set<int>) {
    set x | x in t && x > 0
  }

  predicate Distinct(t: seq<int>) {
    forall i, j :: 0 <= i < j < |t| && t[i] > 0 ==> t[i] != t[j]
  }

  function Free(t: seq<int>): (n: nat) {
    if t == [] then 0 else (if t[0] <= 0 then 1 else 0) + Free(t[1..])
  }

  datatype Op = Add(fd: int) | Del(fd: int)

  function OnTable(t: seq<int>, ops: seq<Op>): (u: seq<int>)
    decreases |ops|
  {
    if ops == [] then t
    else OnTable(if ops[0].Add? then Added(t, ops[0].fd) else Deleted(t, ops[0].fd), ops[1..])
  }

  /** The same operations on a set that holds at most cap descriptors and ignores what exceeds them. */
  function OnSet(s: set<int>, cap: nat, op: Op): (u: set<int>) {
    match op
    case Add(fd) => if |s| < cap then s + {fd} else s
    case Del(fd) => s - {fd}
  }

  function AllOnSet(s: set<int>, cap: nat, ops: seq<Op>): (u: set<int>)
    decreases |ops|
  {
    if ops == [] then s else AllOnSet(OnSet(s, cap, ops[0]), cap, ops[1..])
  }

  /** Only descriptors that are positive and not in the set are added. */
  predicate Fresh(s: set<int>, cap: nat, ops: seq<Op>)
    decreases |ops|
  {
    ops == [] ||
    ((ops[0].Add? ==> ops[0].fd > 0 && ops[0].fd !in s) && Fresh(OnSet(s, cap, ops[0]), cap, ops[1..]))
  }

  lemma OpenCons(t: seq<int>)
    requires t != []
    ensures Open(t) == (if t[0] > 0 then {t[0]} else {}) + Open(t[1..])
  {
    assert t == [t[0]] + t[1..];
  }

  /** Distinct entries fill as many slots as the set has elements. */
  lemma {:induction false} Occupancy(t: seq<int>)
    requires Distinct(t)
    ensures |Open(t)| + Free(t) == |t|
  {
    if t != [] {
      OpenCons(t);
      assert t[0] > 0 ==> t[0] !in Open(t[1..]);
      Occupancy(t[1..]);
    }
  }

  lemma OpenUpdated(t: seq<int>, i: nat, v: int)
    requires Distinct(t) && i < |t|
    ensures Open(t[i := v]) == Open(t) - {t[i]} + (if v > 0 then {v} else {})
  {
    var u := t[i := v];
    forall x | x in t && x != t[i]
      ensures x in u
    {
      var k :| 0 <= k < |t| && t[k] == x;
      assert u[k] == x;
    }
    assert u[i] == v;
  }

  lemma {:induction false} FreeIffSlot(t: seq<int>)
    ensures Free(t) > 0 <==> FirstFree(t) < |t|
  {
    if t != [] {
      FreeIffSlot(t[1..]);
    }
  }

  lemma OpenMembers(t: seq<int>)
    ensures forall i :: 0 <= i < |t| ==> (t[i] in Open(t) <==> t[i] > 0)
    ensures forall x :: x in Open(t) ==> x in t && x > 0
  {
  }

  lemma AddOp(t: seq<int>, fd: int)
    requires Distinct(t) && fd > 0 && fd !in Open(t)
    ensures Distinct(Added(t, fd)) && Open(Added(t, fd)) == OnSet(Open(t), |t|, Add(fd))
  {
    Occupancy(t);
    FreeIffSlot(t);
    OpenMembers(t);
    hide Free, Open;
    var i := FirstFree(t);
    if i < |t| {
      OpenUpdated(t, i, fd);
    }
  }

  lemma DelOp(t: seq<int>, fd: int)
    requires Distinct(t)
    ensures Distinct(Deleted(t, fd)) && Open(Deleted(t, fd)) == OnSet(Open(t), |t|, Del(fd))
  {
    OpenMembers(t);
    hide Open;
    var i := FirstEqual(t, fd);
    if i < |t| {
      OpenUpdated(t, i, -1);
    }
  }

  /** Any sequence of add_fd of fresh descriptors and del_fd keeps the open entries distinct and behaves as the
      bounded set does. */
  lemma {:induction false} TableRefinesSet(t: seq<int>, ops: seq<Op>)
    requires Distinct(t) && Fresh(Open(t), |t|, ops)
    ensures Distinct(OnTable(t, ops)) && Open(OnTable(t, ops)) == AllOnSet(Open(t), |t|, ops)
    decreases |ops|
  {
    if ops != [] {
      if ops[0].Add? {
        AddOp(t, ops[0].fd);
      } else {
        DelOp(t, ops[0].fd);
      }
      TableRefinesSet(if ops[0].Add? then Added(t, ops[0].fd) else Deleted(t, ops[0].fd), ops[1..]);
    }
  }

  // ----- the select loop, which never deletes

  /** The answers of one round: select's return value, whether the listening socket is ready, what accept returns. */
  datatype Round = Round(ret: int, listenerReady: bool, accepted: int)

  datatype SelectCall = SelectCall(nfds: int, rfds: set<int>, wfds: set<int>)

  /** The descriptors accepted in some rounds, in order; a failed accept returns -1. */
  function Accepted(rounds: seq<Round>): (u: seq<int>) {
    if rounds == [] then []
    else
      var r := rounds[|rounds| - 1];
      Accepted(rounds[..|rounds| - 1]) + if r.listenerReady && r.accepted > 0 then [r.accepted] else []
  }

  /** The table holds exactly the first TABLE_SIZE accepted descriptors, in order. */
  predicate Holds(t: seq<int>, accepted: seq<int>) {
    && |t| == TABLE_SIZE
    && var k := Min(|accepted|, TABLE_SIZE);
       t[..k] == accepted[..k] && forall i :: k <= i < TABLE_SIZE ==> t[i] <= 0
  }

  /** A select call that watches the listener and fds for reading and fds for writing, with nfds just above the
      largest of them. */
  predicate Watches(c: SelectCall, listening: int, fds: seq<int>) {
    && c.wfds == (set x | x in fds) && c.rfds == c.wfds + {listening}
    && c.nfds - 1 in c.rfds && forall x :: x in c.rfds ==> x < c.nfds
  }

  lemma {:induction false} AcceptedPositive(rounds: seq<Round>)
    ensures forall i :: 0 <= i < |Accepted(rounds)| ==> Accepted(rounds)[i] > 0
  {
    if rounds != [] {
      AcceptedPositive(rounds[..|rounds| - 1]);
    }
  }

  /** add_fd after a successful or a failed accept. */
  lemma AddKeepsHolds(t: seq<int>, accepted: seq<int>, fd: int)
    requires Holds(t, accepted) && forall i :: 0 <= i < |accepted| ==> accepted[i] > 0
    ensures Holds(Added(t, fd), accepted + if fd > 0 then [fd] else [])
  {
    var k := Min(|accepted|, TABLE_SIZE);
    assert forall i :: 0 <= i < k ==> t[i] == t[..k][i] && accepted[i] == accepted[..k][i];
    assert forall i :: 0 <= i < k ==> t[i] > 0;
    assert FirstFree(t) >= k && (k < |t| ==> t[k] <= 0);
    assert FirstFree(t) == k;
    assert forall i :: 0 <= i < k ==> Added(t, fd)[i] == accepted[i];
  }

  /** The loop that fills the descriptor sets; maxFd only grows. */
  method WatchAll(listening: int, table: array<int>, max: int) returns (maxFd: int, call: SelectCall)
    requires table.Length == TABLE_SIZE
    requires max >= listening && (max == listening || max in Open(table[..]))
    ensures maxFd >= listening && (maxFd == listening || maxFd in Open(table[..]))
    ensures call.wfds == Open(table[..]) && call.rfds == call.wfds + {listening} && call.nfds == maxFd + 1
    ensures forall x :: x in call.rfds ==> x <= maxFd
  {
    maxFd := max;
    var rfds, wfds := {listening}, {};
    for i := 0 to TABLE_SIZE
      invariant wfds == Open(table[..i]) && rfds == wfds + {listening}
      invariant maxFd >= listening && (maxFd == listening || maxFd in Open(table[..]))
      invariant forall x :: x in rfds ==> x <= maxFd
    {
      assert table[..i + 1] == table[..i] + [table[i]];
      if table[i] <= 0 {
        continue;
      }
      rfds, wfds := rfds + {table[i]}, wfds + {table[i]};
      if table[i] > maxFd {
        maxFd := table[i];
      }
    }
    assert table[..TABLE_SIZE] == table[..];
    call := SelectCall(maxFd + 1, rfds, wfds);
  }

  lemma OpenOfHolds(t: seq<int>, accepted: seq<int>)
    requires Holds(t, accepted) && forall i :: 0 <= i < |accepted| ==> accepted[i] > 0
    ensures Open(t) == set x | x in accepted[..Min(|accepted|, TABLE_SIZE)]
  {
    var k := Min(|accepted|, TABLE_SIZE);
    assert forall i :: 0 <= i < k ==> t[i] == t[..k][i];
    forall x
      ensures x in Open(t) <==> x in accepted[..k]
    {
      if x in Open(t) {
        var i :| 0 <= i < |t| && t[i] == x;
        assert t[..k][i] == x;
      }
      if x in accepted[..k] {
        var i :| 0 <= i < k && accepted[i] == x;
        assert t[i] == x;
      }
    }
  }

  predicate Ends(r: Round) {
    r.ret == 0 || r.ret == -1
  }

  /** The descriptors the table can know of after some rounds. */
  function Known(rounds: seq<Round>): (u: seq<int>) {
    var acc := Accepted(rounds);
    acc[..Min(|acc|, TABLE_SIZE)]
  }

  lemma CallWatches(t: seq<int>, listening: int, maxFd: int, call: SelectCall, rounds: seq<Round>)
    requires Holds(t, Accepted(rounds)) && (maxFd == listening || maxFd in Open(t))
    requires call.wfds == Open(t) && call.rfds == call.wfds + {listening} && call.nfds == maxFd + 1
    requires forall x :: x in call.rfds ==> x <= maxFd
    ensures Watches(call, listening, Known(rounds))
  {
    AcceptedPositive(rounds);
    OpenOfHolds(t, Accepted(rounds));
  }

  lemma AddedKeepsOpen(t: seq<int>, fd: int, x: int)
    ensures x in Open(t) ==> x in Open(Added(t, fd))
  {
    if x in Open(t) {
      var k :| 0 <= k < |t| && t[k] == x;
      assert Added(t, fd)[k] == x;
    }
  }

  /** The table after one more round. */
  lemma RoundKeepsHolds(t: seq<int>, rounds: seq<Round>, n: nat)
    requires n < |rounds| && Holds(t, Accepted(rounds[..n]))
    ensures var u := if rounds[n].listenerReady then Added(t, rounds[n].accepted) else t;
            Holds(u, Accepted(rounds[..n + 1])) && forall x :: x in Open(t) ==> x in Open(u)
  {
    var accepted := Accepted(rounds[..n]);
    AcceptedPositive(rounds[..n]);
    assert rounds[..n + 1][..n] == rounds[..n];
    if rounds[n].listenerReady {
      AddKeepsHolds(t, accepted, rounds[n].accepted);
      forall x | x in Open(t)
        ensures x in Open(Added(t, rounds[n].accepted))
      {
        AddedKeepsOpen(t, rounds[n].accepted, x);
      }
    } else {
      assert accepted + [] == accepted;
    }
  }

  method EmptyTable() returns (table: array<int>)
    ensures fresh(table) && Holds(table[..], [])
  {
    table := new int[TABLE_SIZE];
    for i := 0 to TABLE_SIZE
      invariant forall k :: 0 <= k < i ==> table[k] == -1
    {
      table[i] := -1;
    }
  }

  /** accept and add_fd, if the listening socket is ready in round n. */
  method TakeAccepted(table: array<int>, rounds: seq<Round>, n: nat)
    requires n < |rounds| && table.Length == TABLE_SIZE && Holds(table[..], Accepted(rounds[..n]))
    modifies table
    ensures Holds(table[..], Accepted(rounds[..n + 1]))
    ensures forall x :: x in Open(old(table[..])) ==> x in Open(table[..])
  {
    hide Holds, Open, Accepted, Added;
    RoundKeepsHolds(table[..], rounds, n);
    if rounds[n].listenerReady {
      assert table[..TABLE_SIZE] == table[..];
      AddFd(rounds[n].accepted, table, TABLE_SIZE);
      assert table[..TABLE_SIZE] == table[..];
    }
  }

  lemma EndsIs(r: Round)
    ensures Ends(r) <==> r.ret == 0 || r.ret == -1
  {
  }

  /** select_accept. Every call of select watches exactly the descriptors accepted so far, up to the capacity of
      the table, and its nfds bounds them. */
  method SelectAccept(listening: int, rounds: seq<Round>) returns (calls: seq<SelectCall>, table: array<int>)
    ensures |calls| <= |rounds|
    ensures forall r :: 0 <= r < |calls| ==> Watches(calls[r], listening, Known(rounds[..r]))
    ensures |calls| < |rounds| ==> |calls| > 0 && Ends(rounds[|calls| - 1])
    ensures forall r :: 0 <= r < |calls| - 1 ==> !Ends(rounds[r])
    ensures |calls| > 0 && Ends(rounds[|calls| - 1]) ==> Holds(table[..], Accepted(rounds[..|calls| - 1]))
    ensures (forall r :: 0 <= r < |rounds| ==> !Ends(rounds[r])) ==>
              |calls| == |rounds| && Holds(table[..], Accepted(rounds))
  {
    var maxFd := listening;
    table := EmptyTable();
    calls := [];
    assert Accepted(rounds[..0]) == [];
    hide Holds, Open, Accepted, Watches, Known, Added, Min, Ends;
    while |calls| < |rounds|
      invariant |calls| <= |rounds| && table.Length == TABLE_SIZE
      invariant Holds(table[..], Accepted(rounds[..|calls|]))
      invariant maxFd >= listening && (maxFd == listening || maxFd in Open(table[..]))
      invariant forall r :: 0 <= r < |calls| ==> Watches(calls[r], listening, Known(rounds[..r]))
      invariant forall r :: 0 <= r < |calls| ==> !Ends(rounds[r])
      decreases |rounds| - |calls|
    {
      var n := |calls|;
      var call;
      maxFd, call := WatchAll(listening, table, maxFd);
      CallWatches(table[..], listening, maxFd, call, rounds[..n]);
      calls := calls + [call];
      EndsIs(rounds[n]);
      if rounds[n].ret == 0 || rounds[n].ret == -1 {
        break;
      }
      TakeAccepted(table, rounds, n);
      assert rounds[..n + 1] == rounds[..|calls|];
    }
    assert rounds[..|rounds|] == rounds;
  }
}
