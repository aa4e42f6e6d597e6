/** process_accept with pthread_func, sample_socket/test_server.cpp: each connection is handed to a grandson by a
    double fork. A transition system: in each step one process executes the statement it is at, and the kernel
    supplies an answer (a descriptor for accept, a process id for fork; negative means failure). */
module ForkServer {
  type Pid = nat

  type Fd = int

  /** Open file descriptions. Connection(n) is the n-th accepted connection. */
  datatype Object = Listener | Inherited | Connection(id: nat)

  datatype Role = Grandfather | Child | Grandson

  datatype Pc =
    | AtAccept | AtFork | AtWait | AtClose                        // the grandfather's loop
    | Stopped(holding: bool)                                      // it returned -1, after accept or after fork
    | AtCloseListener | AtSecondFork | AtCloseThenExit(code: nat) // the child
    | AtWrite | AtRead | AtFirstClose | AtSecondClose             // the grandson
    | AtExit(code: nat) | Exited(code: nat)

  /** linkage and pid are the local variables linkage_fd and pid; conn and parent are history variables: the
      connection in linkage when the process began its part, and who forked it. */
  datatype Process = Process(role: Role, pc: Pc, linkage: Fd, pid: int, table: map<Fd, Object>,
                             conn: nat, parent: Pid, reaped: bool)

  datatype Op = Write | Read

  /** One call of the handlers write_message and read_message, and the object its descriptor named. */
  datatype Call = Call(pid: Pid, op: Op, target: Object)

  datatype State = State(procs: map<Pid, Process>, accepted: nat, log: seq<Call>,
                         listening: Fd, base: map<Fd, Object>)

  const ROOT: Pid := 0

  function Init(listening: Fd, base: map<Fd, Object>): (t: State) {
    State(map[ROOT := Process(Grandfather, AtAccept, -1, -1, base, 0, ROOT, false)], 0, [], listening, base)
  }

  /** The descriptors the server starts with: the listening socket and others that are no connections. */
  predicate Startable(listening: Fd, base: map<Fd, Object>) {
    && listening in base && base[listening] == Listener
    && forall fd :: fd in base && fd != listening ==> base[fd] == Inherited
  }

  /** Whether p can execute its statement and the kernel can give this answer. accept returns a descriptor that is
      not open in p, fork an unused process id; waitpid returns only when the child has exited. */
  predicate Enabled(s: State, p: Pid, answer: int) {
    p in s.procs &&
    var q := s.procs[p];
    match q.pc
    case AtAccept => answer < 0 || answer !in q.table
    case AtFork => answer < 0 || (answer > 0 && answer !in s.procs)
    case AtSecondFork => answer < 0 || (answer > 0 && answer !in s.procs)
    case AtWait => q.pid in s.procs && s.procs[q.pid].pc.Exited?
    case Stopped(_) => false
    case Exited(_) => false
    case _ => true
  }

  function Close(table: map<Fd, Object>, fd: Fd): (t: map<Fd, Object>) {
    table - {fd}
  }

  /** write_message or read_message on the descriptor linkage; a closed descriptor reaches nothing. */
  function CallOn(p: Pid, op: Op, q: Process): (calls: seq<Call>) {
    if q.linkage in q.table then [Call(p, op, q.table[q.linkage])] else []
  }

  /** The process itself after its statement. */
  function Moved(s: State, p: Pid, answer: int): (next: Process)
    requires Enabled(s, p, answer)
  {
    var q := s.procs[p];
    match q.pc
    case AtAccept =>
      if answer < 0 then q.(pc := Stopped(false))
      else q.(pc := AtFork, linkage := answer, table := q.table[answer := Connection(s.accepted)], conn := s.accepted)
    case AtFork => if answer < 0 then q.(pc := Stopped(true)) else q.(pc := AtWait, pid := answer)
    case AtWait => q.(pc := AtClose)
    case AtClose => q.(pc := AtAccept, table := Close(q.table, q.linkage))
    case AtCloseListener => q.(pc := AtSecondFork, table := Close(q.table, s.listening))
    case AtSecondFork => q.(pc := AtCloseThenExit(if answer < 0 then 1 else 0), pid := answer)
    case AtCloseThenExit(code) => q.(pc := AtExit(code), table := Close(q.table, q.linkage))
    case AtWrite => q.(pc := AtRead)
    case AtRead => q.(pc := AtFirstClose)
    case AtFirstClose => q.(pc := AtSecondClose, table := Close(q.table, q.linkage))
    case AtSecondClose => q.(pc := AtExit(0), table := Close(q.table, q.linkage))
    case AtExit(code) => q.(pc := Exited(code), table := map[])
    case _ => q
  }

  /** A fork that succeeds: the new process is a copy with pid 0, at the statement behind the fork. */
  predicate Forks(q: Process, answer: int) {
    (q.pc.AtFork? || q.pc.AtSecondFork?) && answer > 0
  }

  function Copy(q: Process, p: Pid): (r: Process) {
    q.(role := if q.pc.AtFork? then Child else Grandson, pc := if q.pc.AtFork? then AtCloseListener else AtWrite,
       pid := 0, parent := p, reaped := false)
  }

  /** Process p executes the statement it is at. Beyond p itself, a fork adds a process, waitpid marks one as
      reaped, accept numbers a connection, and the handlers' calls are logged. */
  function Step(s: State, p: Pid, answer: int): (t: State)
    requires Enabled(s, p, answer)
  {
    var q := s.procs[p];
    var others :=
      if Forks(q, answer) then s.procs[answer := Copy(q, p)]
      else if q.pc.AtWait? then s.procs[q.pid := s.procs[q.pid].(reaped := true)]
      else s.procs;
    State(others[p := Moved(s, p, answer)],
          if q.pc.AtAccept? && answer >= 0 then s.accepted + 1 else s.accepted,
          if q.pc.AtWrite? then s.log + CallOn(p, Write, q)
          else if q.pc.AtRead? then s.log + CallOn(p, Read, q)
          else s.log,
          s.listening, s.base)
  }

  /** A schedule: who moves next, and what the kernel answers. */
  datatype Move = Move(pid: Pid, answer: int)

  predicate Runnable(s: State, moves: seq<Move>)
    decreases |moves|
  {
    moves == [] ||
    (Enabled(s, moves[0].pid, moves[0].answer) && Runnable(Step(s, moves[0].pid, moves[0].answer), moves[1..]))
  }

  function Run(s: State, moves: seq<Move>): (t: State)
    requires Runnable(s, moves)
    decreases |moves|
  {
    if moves == [] then s else Run(Step(s, moves[0].pid, moves[0].answer), moves[1..])
  }

  // ----- the invariant

  predicate PcOfRole(role: Role, pc: Pc) {
    match role
    case Grandfather => pc.AtAccept? || pc.AtFork? || pc.AtWait? || pc.AtClose? || pc.Stopped?
    case Child =>
      pc.AtCloseListener? || pc.AtSecondFork? || ((pc.AtCloseThenExit? || pc.AtExit? || pc.Exited?) && pc.code <= 1)
    case Grandson =>
      pc.AtWrite? || pc.AtRead? || pc.AtFirstClose? || pc.AtSecondClose? || pc == AtExit(0) || pc == Exited(0)
  }

  /** Where the connection in linkage is open. */
  predicate Holds(pc: Pc) {
    pc.AtFork? || pc.AtWait? || pc.AtClose? || pc == Stopped(true) || pc.AtCloseListener? || pc.AtSecondFork?
    || pc.AtCloseThenExit? || pc.AtWrite? || pc.AtRead? || pc.AtFirstClose?
  }

  /** Where the listening socket is open. */
  predicate Listens(role: Role, pc: Pc) {
    role.Grandfather? || pc.AtCloseListener?
  }

  /** The exact descriptor table of a process at its statement. */
  function TableAt(s: State, q: Process): (table: map<Fd, Object>) {
    if q.pc.Exited? then map[]
    else
      var t := if Listens(q.role, q.pc) then s.base else s.base - {s.listening};
      if Holds(q.pc) then t[q.linkage := Connection(q.conn)] else t
  }

  predicate RolesOk(s: State) {
    ROOT in s.procs &&
    forall p :: p in s.procs ==>
      var q := s.procs[p];
      PcOfRole(q.role, q.pc) && (q.role.Grandfather? <==> p == ROOT) && (q.reaped ==> q.pc.Exited?)
  }

  /** linkage and conn are set as soon as a connection has been accepted; the grandfather's is the latest. */
  predicate ConnOk(s: State, p: Pid, q: Process) {
    && (q.pc != AtAccept && q.pc != Stopped(false) ==> q.conn < s.accepted && q.linkage !in s.base)
    && (p == ROOT && Holds(q.pc) ==> q.conn + 1 == s.accepted)
  }

  predicate ConnsOk(s: State) {
    forall p :: p in s.procs ==> ConnOk(s, p, s.procs[p])
  }

  predicate TablesOk(s: State) {
    forall p :: p in s.procs ==> s.procs[p].table == TableAt(s, s.procs[p])
  }

  predicate SameDuty(p: Process, q: Process) {
    p.role == q.role && p.conn == q.conn
  }

  /** At most one child and one grandson per connection. */
  predicate OneEach(s: State) {
    forall p, q {:trigger SameDuty(s.procs[p], s.procs[q])} ::
      p in s.procs && q in s.procs && p != ROOT && SameDuty(s.procs[p], s.procs[q]) ==> p == q
  }

  predicate WaitedFor(s: State, g: Process) {
    g.pc.AtWait? ==>
      && g.pid > 0 && g.pid in s.procs
      && s.procs[g.pid].role == Child && s.procs[g.pid].conn == g.conn && !s.procs[g.pid].reaped
  }

  predicate OnlyWaited(s: State, g: Process) {
    forall p :: p in s.procs && s.procs[p].role == Child && !s.procs[p].reaped ==> g.pc.AtWait? && p == g.pid
  }

  predicate NotInherited(s: State, g: Process) {
    g.pc == AtFork || g.pc == Stopped(true) ==>
      forall p :: p in s.procs && p != ROOT ==> s.procs[p].conn != g.conn
  }

  /** Only the child being waited for is unreaped; before the fork nobody has inherited the new connection. */
  predicate Waiting(s: State) {
    ROOT in s.procs && WaitedFor(s, s.procs[ROOT]) && OnlyWaited(s, s.procs[ROOT]) && NotInherited(s, s.procs[ROOT])
  }

  /** The child's second fork has succeeded. */
  predicate Forked(q: Process) {
    q.role == Child && (q.pc == AtCloseThenExit(0) || q.pc == AtExit(0) || q.pc == Exited(0))
  }

  /** A grandson's parent is the forked child of its connection, and a forked child's pid is its grandson. */
  predicate FamilyOf(s: State, p: Pid)
    requires p in s.procs
  {
    var q := s.procs[p];
    && (q.role == Grandson ==>
          q.parent in s.procs && s.procs[q.parent].conn == q.conn && Forked(s.procs[q.parent]))
    && (Forked(q) ==>
          q.pid > 0 && q.pid in s.procs && s.procs[q.pid].role == Grandson && s.procs[q.pid].conn == q.conn)
  }

  predicate Families(s: State) {
    forall p {:trigger FamilyOf(s, p)} :: p in s.procs ==> FamilyOf(s, p)
  }

  function By(log: seq<Call>, p: Pid): (calls: seq<Call>) {
    if log == [] then []
    else By(log[..|log| - 1], p) + (if log[|log| - 1].pid == p then [log[|log| - 1]] else [])
  }

  function On(log: seq<Call>, id: nat): (calls: seq<Call>) {
    if log == [] then []
    else On(log[..|log| - 1], id) + (if log[|log| - 1].target == Connection(id) then [log[|log| - 1]] else [])
  }

  /** The calls a process has made when it is at its statement. */
  function CallsAt(p: Pid, q: Process): (calls: seq<Call>) {
    var w, r := Call(p, Write, Connection(q.conn)), Call(p, Read, Connection(q.conn));
    if q.role != Grandson || q.pc.AtWrite? then [] else if q.pc.AtRead? then [w] else [w, r]
  }

  predicate EntriesOk(s: State) {
    forall i :: 0 <= i < |s.log| ==>
      && s.log[i].pid in s.procs && s.procs[s.log[i].pid].role == Grandson
      && s.log[i].target == Connection(s.procs[s.log[i].pid].conn)
  }

  predicate CallsOk(s: State) {
    forall p :: p in s.procs ==> By(s.log, p) == CallsAt(p, s.procs[p])
  }

  predicate Inv(s: State) {
    && Startable(s.listening, s.base) && RolesOk(s) && ConnsOk(s) && TablesOk(s)
    && OneEach(s) && Waiting(s) && Families(s) && EntriesOk(s) && CallsOk(s)
  }

  lemma InitOk(listening: Fd, base: map<Fd, Object>)
    requires Startable(listening, base)
    ensures Inv(Init(listening, base))
  {
  }

  lemma RolesKept(s: State, p: Pid, answer: int)
    requires RolesOk(s) && Waiting(s) && Enabled(s, p, answer)
    ensures RolesOk(Step(s, p, answer))
  {
  }

  /** What a step leaves alone, and what it adds. */
  lemma StepFrame(s: State, p: Pid, answer: int, x: Pid)
    requires RolesOk(s) && Waiting(s) && Enabled(s, p, answer)
    ensures var t := Step(s, p, answer);
            && (x in s.procs ==> x in t.procs && t.procs[x].role == s.procs[x].role)
            && (x in s.procs && x != ROOT ==> t.procs[x].conn == s.procs[x].conn)
            && (x in s.procs && x != p ==> t.procs[x] == s.procs[x].(reaped := t.procs[x].reaped))
            && (x == p ==> t.procs[x] == Moved(s, p, answer))
            && (x in t.procs && x !in s.procs ==>
                  x == answer && Forks(s.procs[p], answer) && t.procs[x] == Copy(s.procs[p], p))
  {
  }

  lemma ConnsKept(s: State, p: Pid, answer: int)
    requires RolesOk(s) && ConnsOk(s) && Waiting(s) && Enabled(s, p, answer)
    requires s.procs[p].table == TableAt(s, s.procs[p])
    ensures ConnsOk(Step(s, p, answer))
  {
  }

  /** The tables of the acting process and of its copy, statement by statement. */
  lemma ActorTable(s: State, p: Pid, answer: int)
    requires Startable(s.listening, s.base) && RolesOk(s) && Enabled(s, p, answer)
    requires ConnOk(s, p, s.procs[p]) && s.procs[p].table == TableAt(s, s.procs[p])
    ensures Moved(s, p, answer).table == TableAt(s, Moved(s, p, answer))
    ensures Forks(s.procs[p], answer) ==> Copy(s.procs[p], p).table == TableAt(s, Copy(s.procs[p], p))
  {
    assert PcOfRole(s.procs[p].role, s.procs[p].pc);
  }

  lemma TablesKept(s: State, p: Pid, answer: int)
    requires Startable(s.listening, s.base) && RolesOk(s) && ConnsOk(s) && TablesOk(s) && Waiting(s)
    requires Enabled(s, p, answer)
    ensures TablesOk(Step(s, p, answer))
  {
    var t := Step(s, p, answer);
    ActorTable(s, p, answer);
    forall x | x in t.procs
      ensures t.procs[x].table == TableAt(t, t.procs[x])
    {
      StepFrame(s, p, answer, x);
      hide RolesOk, Waiting, Moved, Copy, ConnsOk;
    }
  }

  /** A child whose connection has a grandson has forked it. */
  lemma ParentForked(s: State, g: Pid, child: Pid)
    requires RolesOk(s) && OneEach(s) && Families(s) && g in s.procs && child in s.procs
    requires s.procs[g].role == Grandson && s.procs[child].role == Child && s.procs[g].conn == s.procs[child].conn
    ensures Forked(s.procs[child])
  {
    assert FamilyOf(s, g);
    assert SameDuty(s.procs[s.procs[g].parent], s.procs[child]);
  }

  /** A new process is the only one of its role for its connection. */
  lemma NewbornUnique(s: State, p: Pid, answer: int, x: Pid)
    requires RolesOk(s) && OneEach(s) && Waiting(s) && Families(s) && Enabled(s, p, answer)
    requires Forks(s.procs[p], answer) && x in s.procs
    ensures !SameDuty(Copy(s.procs[p], p), s.procs[x])
  {
    if s.procs[p].pc.AtSecondFork? && SameDuty(Copy(s.procs[p], p), s.procs[x]) {
      ParentForked(s, x, p);
    }
  }

  lemma OneEachKept(s: State, p: Pid, answer: int)
    requires RolesOk(s) && OneEach(s) && Waiting(s) && Families(s) && Enabled(s, p, answer)
    ensures OneEach(Step(s, p, answer))
  {
    var t := Step(s, p, answer);
    RolesKept(s, p, answer);
    forall x, y | x in t.procs && y in t.procs && x != ROOT && SameDuty(t.procs[x], t.procs[y])
      ensures x == y
    {
      hide Waiting, Families, TableAt;
      if x in s.procs && y in s.procs {
        assert SameDuty(s.procs[x], s.procs[y]);
      } else if x in s.procs {
        NewbornUnique(s, p, answer, x);
      } else if y in s.procs {
        NewbornUnique(s, p, answer, y);
      }
    }
  }

  lemma WaitedForKept(s: State, p: Pid, answer: int)
    requires RolesOk(s) && Waiting(s) && Enabled(s, p, answer)
    ensures var t := Step(s, p, answer); ROOT in t.procs && WaitedFor(t, t.procs[ROOT])
  {
    hide NotInherited, TableAt, Close;
  }

  lemma OnlyWaitedKept(s: State, p: Pid, answer: int)
    requires RolesOk(s) && Waiting(s) && Enabled(s, p, answer)
    ensures var t := Step(s, p, answer); ROOT in t.procs && OnlyWaited(t, t.procs[ROOT])
  {
    hide NotInherited, TableAt, Close;
  }

  lemma NotInheritedKept(s: State, p: Pid, answer: int)
    requires RolesOk(s) && ConnsOk(s) && Waiting(s) && Enabled(s, p, answer)
    ensures var t := Step(s, p, answer); ROOT in t.procs && NotInherited(t, t.procs[ROOT])
  {
    var t := Step(s, p, answer);
    StepFrame(s, p, answer, ROOT);
    var g := t.procs[ROOT];
    if g.pc == AtFork || g.pc == Stopped(true) {
      forall x | x in t.procs && x != ROOT
        ensures t.procs[x].conn != g.conn
      {
        StepFrame(s, p, answer, x);
        var y := if x in s.procs then x else p;
        assert ConnOk(s, y, s.procs[y]) && PcOfRole(s.procs[y].role, s.procs[y].pc);
        hide OnlyWaited, WaitedFor, TableAt, Close, Step;
      }
    }
  }

  lemma WaitingKept(s: State, p: Pid, answer: int)
    requires RolesOk(s) && ConnsOk(s) && OneEach(s) && Waiting(s) && Enabled(s, p, answer)
    ensures Waiting(Step(s, p, answer))
  {
    var t := Step(s, p, answer);
    RolesKept(s, p, answer);
    WaitedForKept(s, p, answer);
    OnlyWaitedKept(s, p, answer);
    NotInheritedKept(s, p, answer);
    hide Step, WaitedFor, OnlyWaited, NotInherited, OneEach, ConnsOk, Enabled;
  }

  lemma ForkedKept(s: State, p: Pid, answer: int, x: Pid)
    requires RolesOk(s) && Waiting(s) && Enabled(s, p, answer) && x in s.procs && Forked(s.procs[x])
    ensures var t := Step(s, p, answer);
            x in t.procs && Forked(t.procs[x]) && t.procs[x].pid == s.procs[x].pid && t.procs[x].conn == s.procs[x].conn
  {
    StepFrame(s, p, answer, x);
    assert PcOfRole(s.procs[x].role, s.procs[x].pc);
    assert x != ROOT;
    hide RolesOk, Waiting, Step, Copy, TableAt;
  }

  lemma FamilyKept(s: State, p: Pid, answer: int, x: Pid)
    requires RolesOk(s) && Waiting(s) && Families(s) && Enabled(s, p, answer) && x in Step(s, p, answer).procs
    ensures FamilyOf(Step(s, p, answer), x)
  {
    StepFrame(s, p, answer, x);
    if x in s.procs {
      var q := s.procs[x];
      assert FamilyOf(s, x) && (x == ROOT <==> q.role == Grandfather) && PcOfRole(q.role, q.pc);
      if q.role == Grandson {
        ForkedKept(s, p, answer, q.parent);
      } else if Forked(q) {
        ForkedKept(s, p, answer, x);
        StepFrame(s, p, answer, q.pid);
      }
    } else {
      StepFrame(s, p, answer, p);
    }
    if Forks(s.procs[p], answer) {
      StepFrame(s, p, answer, answer);
    }
    assert Forks(s.procs[p], answer) ==> answer in Step(s, p, answer).procs;
    assert s.procs[p].role.Grandfather? <==> p == ROOT;
    assert PcOfRole(s.procs[p].role, s.procs[p].pc);
    hide RolesOk, Waiting, Families, Step, TableAt;
  }

  lemma AllFamilies(s: State)
    requires forall x {:trigger FamilyOf(s, x)} :: x in s.procs ==> FamilyOf(s, x)
    ensures Families(s)
  {
  }

  lemma FamiliesKept(s: State, p: Pid, answer: int)
    requires RolesOk(s) && Waiting(s) && Families(s) && Enabled(s, p, answer)
    ensures Families(Step(s, p, answer))
  {
    hide *;
    forall x | x in Step(s, p, answer).procs
      ensures FamilyOf(Step(s, p, answer), x)
    {
      FamilyKept(s, p, answer, x);
    }
    AllFamilies(Step(s, p, answer));
  }

  /** At the handlers' calls, linkage is open and names the process's own connection. */
  lemma OwnConnection(s: State, p: Pid)
    requires RolesOk(s) && TablesOk(s) && p in s.procs && Holds(s.procs[p].pc)
    ensures var q := s.procs[p]; q.linkage in q.table && q.table[q.linkage] == Connection(q.conn)
  {
  }

  function NewCalls(s: State, p: Pid): (calls: seq<Call>)
    requires p in s.procs
  {
    var q := s.procs[p];
    if q.pc.AtWrite? then CallOn(p, Write, q) else if q.pc.AtRead? then CallOn(p, Read, q) else []
  }

  /** Every step logs what the acting process owes at its next statement. */
  lemma StepCalls(s: State, p: Pid, answer: int)
    requires RolesOk(s) && TablesOk(s) && Enabled(s, p, answer)
    ensures var q := s.procs[p];
            && Step(s, p, answer).log == s.log + NewCalls(s, p)
            && (NewCalls(s, p) != [] ==>
                  q.role == Grandson && (NewCalls(s, p) == [Call(p, Write, Connection(q.conn))]
                                         || NewCalls(s, p) == [Call(p, Read, Connection(q.conn))]))
            && CallsAt(p, Moved(s, p, answer)) == CallsAt(p, q) + NewCalls(s, p)
  {
    var q := s.procs[p];
    if q.pc.AtWrite? || q.pc.AtRead? {
      OwnConnection(s, p);
    }
    hide TablesOk, TableAt;
    assert PcOfRole(q.role, q.pc);
  }

  lemma ByAppend(log: seq<Call>, c: seq<Call>, p: Pid)
    requires |c| <= 1
    ensures By(log + c, p) == By(log, p) + if c != [] && c[0].pid == p then c else []
  {
    if c == [] {
      assert log + c == log;
    } else {
      assert (log + c)[..|log|] == log;
    }
  }

  lemma {:induction false} ByAbsent(log: seq<Call>, p: Pid)
    requires forall i :: 0 <= i < |log| ==> log[i].pid != p
    ensures By(log, p) == []
  {
    if log != [] {
      ByAbsent(log[..|log| - 1], p);
    }
  }

  lemma EntriesKept(s: State, p: Pid, answer: int)
    requires RolesOk(s) && TablesOk(s) && Waiting(s) && EntriesOk(s) && Enabled(s, p, answer)
    ensures EntriesOk(Step(s, p, answer))
  {
    var t := Step(s, p, answer);
    StepCalls(s, p, answer);
    hide TablesOk, TableAt, NewCalls, PcOfRole, Moved, Step, Waiting;
    forall i | 0 <= i < |t.log|
      ensures t.log[i].pid in t.procs && t.procs[t.log[i].pid].role == Grandson
      ensures t.log[i].target == Connection(t.procs[t.log[i].pid].conn)
    {
      StepFrame(s, p, answer, if i < |s.log| then s.log[i].pid else p);
      if i < |s.log| {
        assert t.log[i] == s.log[i];
      }
    }
  }

  lemma CallsUnchanged(s: State, p: Pid, answer: int, x: Pid)
    requires RolesOk(s) && Waiting(s) && Enabled(s, p, answer) && x in Step(s, p, answer).procs && x != p
    ensures CallsAt(x, Step(s, p, answer).procs[x]) == if x in s.procs then CallsAt(x, s.procs[x]) else []
  {
    StepFrame(s, p, answer, x);
    hide RolesOk, Waiting, Step, Moved;
  }

  lemma CallsKeptFor(s: State, p: Pid, answer: int, x: Pid)
    requires RolesOk(s) && TablesOk(s) && Waiting(s) && EntriesOk(s) && Enabled(s, p, answer)
    requires x in Step(s, p, answer).procs && (x in s.procs ==> By(s.log, x) == CallsAt(x, s.procs[x]))
    ensures By(Step(s, p, answer).log, x) == CallsAt(x, Step(s, p, answer).procs[x])
  {
    var c := NewCalls(s, p);
    StepCalls(s, p, answer);
    StepFrame(s, p, answer, x);
    if x != p {
      CallsUnchanged(s, p, answer, x);
    }
    assert p in s.procs;
    hide RolesOk, TablesOk, Waiting, Step, Moved, NewCalls, By, Enabled, CallsAt, Copy;
    ByAppend(s.log, c, x);
    if x !in s.procs {
      ByAbsent(s.log, x);
    }
  }

  lemma CallsKept(s: State, p: Pid, answer: int)
    requires RolesOk(s) && TablesOk(s) && Waiting(s) && EntriesOk(s) && CallsOk(s) && Enabled(s, p, answer)
    ensures CallsOk(Step(s, p, answer))
  {
    hide RolesOk, TablesOk, Waiting, EntriesOk, Step, CallsAt, By, Enabled;
    forall x | x in Step(s, p, answer).procs
      ensures By(Step(s, p, answer).log, x) == CallsAt(x, Step(s, p, answer).procs[x])
    {
      CallsKeptFor(s, p, answer, x);
    }
  }

  lemma InvKept(s: State, p: Pid, answer: int)
    requires Inv(s) && Enabled(s, p, answer)
    ensures Inv(Step(s, p, answer))
  {
    RolesKept(s, p, answer);
    ConnsKept(s, p, answer);
    TablesKept(s, p, answer);
    OneEachKept(s, p, answer);
    WaitingKept(s, p, answer);
    FamiliesKept(s, p, answer);
    EntriesKept(s, p, answer);
    CallsKept(s, p, answer);
  }

  lemma {:induction false} RunKeepsInv(s: State, moves: seq<Move>)
    requires Inv(s) && Runnable(s, moves)
    ensures Inv(Run(s, moves))
    decreases |moves|
  {
    hide Inv, Step, Enabled;
    if moves != [] {
      InvKept(s, moves[0].pid, moves[0].answer);
      RunKeepsInv(Step(s, moves[0].pid, moves[0].answer), moves[1..]);
    }
  }

  // ----- what holds after every run, for any interleaving and any kernel answers

  /** The state is reached from the start of the server by moves. */
  predicate Reached(s: State, moves: seq<Move>) {
    && Startable(s.listening, s.base)
    && Runnable(Init(s.listening, s.base), moves)
    && s == Run(Init(s.listening, s.base), moves)
  }

  lemma ReachedInv(s: State, moves: seq<Move>)
    requires Reached(s, moves)
    ensures Inv(s)
  {
    hide Inv;
    InitOk(s.listening, s.base);
    RunKeepsInv(Init(s.listening, s.base), moves);
  }

  /** A connection is open only in processes of its own lineage, under the number they keep in linkage_fd. Back at
      accept, the grandfather has exactly the descriptors it started with, every child is reaped, and whoever still
      has a connection open is a grandson that has not closed it yet. */
  lemma Ownership(s: State, moves: seq<Move>)
    requires Reached(s, moves)
    ensures ROOT in s.procs
    ensures forall p, fd :: p in s.procs && fd in s.procs[p].table && s.procs[p].table[fd].Connection? ==>
              var q := s.procs[p];
              q.table[fd] == Connection(q.conn) && q.conn < s.accepted && fd == q.linkage && Holds(q.pc)
    ensures s.procs[ROOT].pc == AtAccept ==>
              && s.procs[ROOT].table == s.base
              && (forall p :: p in s.procs && s.procs[p].role == Child ==> s.procs[p].reaped)
              && (forall p, fd :: p in s.procs && fd in s.procs[p].table && s.procs[p].table[fd].Connection? ==>
                    s.procs[p].role == Grandson)
  {
    ReachedInv(s, moves);
    hide OneEach, Families, EntriesOk, CallsOk, Reached;
    forall p, fd | p in s.procs && fd in s.procs[p].table && s.procs[p].table[fd].Connection?
      ensures var q := s.procs[p];
              q.table[fd] == Connection(q.conn) && q.conn < s.accepted && fd == q.linkage && Holds(q.pc)
    {
      assert ConnOk(s, p, s.procs[p]);
    }
  }

  lemma {:induction false} OnIsBy(s: State, log: seq<Call>, g: Pid, id: nat)
    requires forall i :: 0 <= i < |log| ==> (log[i].pid == g <==> log[i].target == Connection(id))
    ensures On(log, id) == By(log, g)
    decreases |log|
  {
    if log != [] {
      OnIsBy(s, log[..|log| - 1], g, id);
    }
  }

  lemma {:induction false} OnAbsent(log: seq<Call>, id: nat)
    requires forall i :: 0 <= i < |log| ==> log[i].target != Connection(id)
    ensures On(log, id) == []
  {
    if log != [] {
      OnAbsent(log[..|log| - 1], id);
    }
  }

  predicate IsGrandsonOf(s: State, g: Pid, id: nat) {
    g in s.procs && s.procs[g].role == Grandson && s.procs[g].conn == id
  }

  lemma OneGrandson(s: State, g: Pid, h: Pid, id: nat)
    requires RolesOk(s) && OneEach(s) && IsGrandsonOf(s, g, id) && IsGrandsonOf(s, h, id)
    ensures g == h
  {
    assert SameDuty(s.procs[g], s.procs[h]);
  }

  lemma EntryOf(s: State, i: nat)
    requires EntriesOk(s) && i < |s.log|
    ensures forall id :: s.log[i].target == Connection(id) <==> IsGrandsonOf(s, s.log[i].pid, id)
  {
  }

  lemma GrandsonCalls(s: State, g: Pid, id: nat)
    requires RolesOk(s) && OneEach(s) && EntriesOk(s) && CallsOk(s) && IsGrandsonOf(s, g, id)
    ensures On(s.log, id) == CallsAt(g, s.procs[g])
  {
    assert By(s.log, g) == CallsAt(g, s.procs[g]);
    hide RolesOk, OneEach, EntriesOk, CallsOk, CallsAt, By, On;
    forall i | 0 <= i < |s.log|
      ensures s.log[i].pid == g <==> s.log[i].target == Connection(id)
    {
      EntryOf(s, i);
      if s.log[i].target == Connection(id) {
        OneGrandson(s, g, s.log[i].pid, id);
      }
    }
    OnIsBy(s, s.log, g, id);
  }

  lemma NoListener(s: State, g: Pid, id: nat)
    requires Startable(s.listening, s.base) && RolesOk(s) && TablesOk(s) && IsGrandsonOf(s, g, id)
    ensures forall fd :: fd in s.procs[g].table ==> s.procs[g].table[fd] != Listener
  {
    assert PcOfRole(s.procs[g].role, s.procs[g].pc);
  }

  /** The calls on a connection are those of its one grandson, write before read and each at most once; without a
      grandson nobody calls on it, and a grandson that has exited has made both. */
  lemma ServedOnce(s: State, moves: seq<Move>, id: nat)
    requires Reached(s, moves)
    ensures forall g :: IsGrandsonOf(s, g, id) ==>
              && On(s.log, id) == CallsAt(g, s.procs[g])
              && (s.procs[g].pc.Exited? ==>
                    On(s.log, id) == [Call(g, Write, Connection(id)), Call(g, Read, Connection(id))])
              && (forall fd :: fd in s.procs[g].table ==> s.procs[g].table[fd] != Listener)
    ensures forall g, h :: IsGrandsonOf(s, g, id) && IsGrandsonOf(s, h, id) ==> g == h
    ensures (forall g :: !IsGrandsonOf(s, g, id)) ==> On(s.log, id) == []
  {
    ReachedInv(s, moves);
    hide Waiting, Families, Reached, ConnsOk, Startable, TablesOk, RolesOk, OneEach, EntriesOk, CallsOk;
    forall g, h | IsGrandsonOf(s, g, id) && IsGrandsonOf(s, h, id)
      ensures g == h
    {
      OneGrandson(s, g, h, id);
    }
    forall g | IsGrandsonOf(s, g, id)
      ensures On(s.log, id) == CallsAt(g, s.procs[g])
      ensures forall fd :: fd in s.procs[g].table ==> s.procs[g].table[fd] != Listener
    {
      GrandsonCalls(s, g, id);
      NoListener(s, g, id);
    }
    if forall g :: !IsGrandsonOf(s, g, id) {
      forall i | 0 <= i < |s.log|
        ensures s.log[i].target != Connection(id)
      {
        EntryOf(s, i);
        assert !IsGrandsonOf(s, s.log[i].pid, id);
      }
      OnAbsent(s.log, id);
    }
  }

  /** A connection has a grandson exactly when both of its forks have succeeded. */
  lemma GrandsonIffForked(s: State, moves: seq<Move>, id: nat)
    requires Reached(s, moves)
    ensures (exists g :: IsGrandsonOf(s, g, id)) <==>
            (exists p :: p in s.procs && Forked(s.procs[p]) && s.procs[p].conn == id)
  {
    ReachedInv(s, moves);
    hide Waiting, OneEach, TablesOk, ConnsOk, EntriesOk, CallsOk, Reached;
    if g :| IsGrandsonOf(s, g, id) {
      assert FamilyOf(s, g);
      assert Forked(s.procs[s.procs[g].parent]);
    }
    if p :| p in s.procs && Forked(s.procs[p]) && s.procs[p].conn == id {
      assert FamilyOf(s, p);
      assert IsGrandsonOf(s, s.procs[p].pid, id);
    }
  }

  /** The second close of linkage_fd in the grandson closes nothing, in any process. */
  lemma SecondCloseHarmless(s: State, moves: seq<Move>, p: Pid, answer: int, x: Pid)
    requires Reached(s, moves) && Enabled(s, p, answer) && s.procs[p].pc.AtSecondClose? && x in s.procs
    ensures Step(s, p, answer).procs[x].table == s.procs[x].table
  {
    ReachedInv(s, moves);
    StepFrame(s, p, answer, x);
    assert ConnOk(s, p, s.procs[p]);
  }

  function StepsLeft(pc: Pc): (n: nat) {
    match pc
    case AtCloseListener => 4
    case AtSecondFork => 3
    case AtCloseThenExit(_) => 2
    case AtExit(_) => 1
    case _ => 0
  }

  predicate AcceptsAgain(s: State) {
    ROOT in s.procs && s.procs[ROOT].pc.AtAccept?
  }

  /** The grandfather is on its way from the fork back to accept: it waits for child, or is about to close. */
  predicate Returning(s: State, child: Pid) {
    && ROOT in s.procs && child in s.procs
    && ((s.procs[ROOT].pc.AtWait? && s.procs[ROOT].pid == child)
        || (s.procs[ROOT].pc.AtClose? && s.procs[child].pc.Exited?))
  }

  /** The statements of the two that remain on that way. */
  function TurnsLeft(s: State, child: Pid): (n: nat)
    requires Returning(s, child)
  {
    if s.procs[ROOT].pc.AtWait? then StepsLeft(s.procs[child].pc) + 2 else 1
  }

  lemma ChildOwnStep(s: State, child: Pid, answer: int)
    requires Enabled(s, child, answer) && s.procs[child].role == Child && PcOfRole(Child, s.procs[child].pc)
    ensures StepsLeft(Moved(s, child, answer).pc) == StepsLeft(s.procs[child].pc) - 1
  {
    hide Close;
  }

  lemma ChildTurn(s: State, child: Pid, answer: int)
    requires Inv(s) && Returning(s, child) && Enabled(s, child, answer) && child != ROOT
    ensures var t := Step(s, child, answer);
            Returning(t, child) && TurnsLeft(t, child) == TurnsLeft(s, child) - 1 > 0
  {
    assert PcOfRole(s.procs[child].role, s.procs[child].pc);
    assert s.procs[ROOT].pc.AtWait? && s.procs[child].role == Child;
    StepFrame(s, child, answer, ROOT);
    StepFrame(s, child, answer, child);
    ChildOwnStep(s, child, answer);
    hide Inv, RolesOk, Waiting, Step, Copy, Forks, Moved, Enabled, StepsLeft;
  }

  lemma RootTurn(s: State, child: Pid, answer: int)
    requires Inv(s) && Returning(s, child) && Enabled(s, ROOT, answer) && child != ROOT
    ensures var t := Step(s, ROOT, answer);
            && s.procs[child].pc.Exited?
            && if TurnsLeft(s, child) == 1 then AcceptsAgain(t)
               else Returning(t, child) && TurnsLeft(t, child) == TurnsLeft(s, child) - 1
  {
    StepFrame(s, ROOT, answer, ROOT);
    StepFrame(s, ROOT, answer, child);
    hide Inv, RolesOk, Waiting, Step, Copy, Forks;
  }

  lemma OtherTurn(s: State, child: Pid, p: Pid, answer: int)
    requires Inv(s) && Returning(s, child) && Enabled(s, p, answer) && p != child && p != ROOT
    ensures var t := Step(s, p, answer); Returning(t, child) && TurnsLeft(t, child) == TurnsLeft(s, child)
  {
    StepFrame(s, p, answer, ROOT);
    StepFrame(s, p, answer, child);
    hide Inv, RolesOk, Waiting, Step, Copy, Forks, Moved;
  }

  /** One step of any process, with any answer: the two lower what remains by one, and end at accept; nobody else
      delays them. The child has the first turns. */
  lemma AnyStepReturns(s: State, child: Pid, p: Pid, answer: int)
    requires Inv(s) && Returning(s, child) && Enabled(s, p, answer)
    ensures var t := Step(s, p, answer);
            var left := TurnsLeft(s, child) - (if p == child || p == ROOT then 1 else 0);
            if left == 0 then AcceptsAgain(t) else Returning(t, child) && TurnsLeft(t, child) == left
    ensures s.procs[ROOT].pc.AtWait? && p == ROOT ==> s.procs[child].pc.Exited?
  {
    assert child != ROOT;
    assert TurnsLeft(s, child) > 0;
    hide Inv, Step, Returning, TurnsLeft, AcceptsAgain, Enabled;
    if p == child {
      ChildTurn(s, child, answer);
    } else if p == ROOT {
      RootTurn(s, child, answer);
    } else {
      OtherTurn(s, child, p, answer);
    }
  }

  /** On that way, one of the two can always make a step, whatever the kernel answers to a fork. */
  lemma NeverStuck(s: State, child: Pid)
    requires Inv(s) && Returning(s, child)
    ensures Enabled(s, child, -1) || Enabled(s, ROOT, 0)
  {
    assert PcOfRole(s.procs[child].role, s.procs[child].pc);
  }

  /** So some schedule takes the grandfather back to accept, with no one else's help. */
  lemma {:induction false} BackToAccept(s: State, child: Pid) returns (moves: seq<Move>)
    requires Inv(s) && Returning(s, child)
    ensures |moves| == TurnsLeft(s, child)
    ensures Runnable(s, moves) && AcceptsAgain(Run(s, moves))
    decreases TurnsLeft(s, child)
  {
    NeverStuck(s, child);
    var m := if Enabled(s, child, -1) then Move(child, -1) else Move(ROOT, 0);
    AnyStepReturns(s, child, m.pid, m.answer);
    InvKept(s, m.pid, m.answer);
    hide Inv, Step, Enabled;
    var rest := [];
    if Returning(Step(s, m.pid, m.answer), child) {
      rest := BackToAccept(Step(s, m.pid, m.answer), child);
    }
    moves := [m] + rest;
    assert moves[1..] == rest;
  }

  /** Whenever the grandfather waits, that is where it is. */
  lemma WaitReturns(s: State)
    requires Inv(s) && s.procs[ROOT].pc.AtWait?
    ensures s.procs[ROOT].pid > 0 && Returning(s, s.procs[ROOT].pid)
  {
  }

  /** The turns that child and the grandfather take in a schedule. */
  function Turns(moves: seq<Move>, child: Pid): (n: nat) {
    if moves == [] then 0
    else (if moves[0].pid == child || moves[0].pid == ROOT then 1 else 0) + Turns(moves[1..], child)
  }

  /** The grandfather is at accept after some of the moves. */
  predicate PassesAccept(s: State, moves: seq<Move>)
    requires Runnable(s, moves)
    decreases |moves|
  {
    AcceptsAgain(s) || (moves != [] && PassesAccept(Step(s, moves[0].pid, moves[0].answer), moves[1..]))
  }

  /** waitpid always ends, in every interleaving and for any answers: the grandfather comes back to accept with the
      turn that brings the turns of the two to what remained, six at most, and not before. */
  lemma {:induction false} WaitEnds(s: State, child: Pid, moves: seq<Move>)
    requires Inv(s) && Returning(s, child) && Runnable(s, moves)
    ensures TurnsLeft(s, child) <= 6
    ensures PassesAccept(s, moves) <==> Turns(moves, child) >= TurnsLeft(s, child)
    ensures !PassesAccept(s, moves) ==>
              && Returning(Run(s, moves), child)
              && TurnsLeft(Run(s, moves), child) == TurnsLeft(s, child) - Turns(moves, child)
    decreases |moves|
  {
    assert StepsLeft(s.procs[child].pc) <= 4;
    if moves != [] {
      var m := moves[0];
      AnyStepReturns(s, child, m.pid, m.answer);
      InvKept(s, m.pid, m.answer);
      var t := Step(s, m.pid, m.answer);
      hide Inv, Step, Enabled;
      if Returning(t, child) {
        WaitEnds(t, child, moves[1..]);
      }
    }
  }

  // ----- grandsons reach their end, and the grandfather stops only on a failure

  /** The statements that remain to a grandson. */
  function GrandsonLeft(pc: Pc): (n: nat) {
    match pc
    case AtWrite => 5
    case AtRead => 4
    case AtFirstClose => 3
    case AtSecondClose => 2
    case AtExit(_) => 1
    case _ => 0
  }

  lemma OwnStep(s: State, g: Pid, answer: int)
    requires Enabled(s, g, answer) && s.procs[g].role == Grandson && PcOfRole(Grandson, s.procs[g].pc)
    ensures var q, r := s.procs[g], Moved(s, g, answer);
            r.role == Grandson && r.conn == q.conn && GrandsonLeft(r.pc) == GrandsonLeft(q.pc) - 1
  {
    hide Close;
  }

  /** One step of any process, with any answer, takes a grandson one statement on exactly when it is its own. */
  lemma GrandsonStep(s: State, g: Pid, id: nat, p: Pid, answer: int)
    requires Inv(s) && IsGrandsonOf(s, g, id) && Enabled(s, p, answer)
    ensures var t := Step(s, p, answer);
            && IsGrandsonOf(t, g, id)
            && GrandsonLeft(t.procs[g].pc) == GrandsonLeft(s.procs[g].pc) - (if p == g then 1 else 0)
  {
    assert PcOfRole(s.procs[g].role, s.procs[g].pc) && g != ROOT;
    StepFrame(s, p, answer, g);
    hide Inv, RolesOk, Waiting, Step, Copy, Forks;
    if p == g {
      OwnStep(s, g, answer);
    }
    hide Moved, Enabled;
  }

  /** Until the last, it can always take its next statement; after it, it has exited with 0. */
  lemma GrandsonGoesOn(s: State, g: Pid, id: nat)
    requires Inv(s) && IsGrandsonOf(s, g, id)
    ensures if GrandsonLeft(s.procs[g].pc) > 0 then Enabled(s, g, 0) else s.procs[g].pc == Exited(0)
  {
    assert PcOfRole(s.procs[g].role, s.procs[g].pc);
  }

  /** The turns that p takes in a schedule. */
  function TurnsOf(moves: seq<Move>, p: Pid): (n: nat) {
    if moves == [] then 0 else (if moves[0].pid == p then 1 else 0) + TurnsOf(moves[1..], p)
  }

  /** In every interleaving, for any answers, a grandson has exited exactly when it has taken the turns that remained
      to it, five at most; it takes no more. */
  lemma {:induction false} GrandsonEnds(s: State, g: Pid, id: nat, moves: seq<Move>)
    requires Inv(s) && IsGrandsonOf(s, g, id) && Runnable(s, moves)
    ensures var t := Run(s, moves);
            && IsGrandsonOf(t, g, id)
            && TurnsOf(moves, g) <= GrandsonLeft(s.procs[g].pc) <= 5
            && (t.procs[g].pc == Exited(0) <==> TurnsOf(moves, g) == GrandsonLeft(s.procs[g].pc))
    decreases |moves|
  {
    GrandsonGoesOn(s, g, id);
    if moves != [] {
      var m := moves[0];
      GrandsonStep(s, g, id, m.pid, m.answer);
      InvKept(s, m.pid, m.answer);
      hide Inv, Step, Enabled, IsGrandsonOf;
      GrandsonEnds(Step(s, m.pid, m.answer), g, id, moves[1..]);
    }
  }

  /** What the grandfather does at accept and at fork: a failure stops it, anything else takes it on. */
  lemma RootStep(s: State, answer: int)
    requires Inv(s) && Enabled(s, ROOT, answer)
    ensures var g, t := s.procs[ROOT], Step(s, ROOT, answer);
            var h := t.procs[ROOT];
            && (h.pc.Stopped? <==> (g.pc.AtAccept? || g.pc.AtFork?) && answer < 0)
            && (g.pc.AtAccept? && answer >= 0 ==>
                  h.pc.AtFork? && h.linkage == answer && h.conn == s.accepted && t.accepted == s.accepted + 1)
            && (g.pc.AtFork? && answer > 0 ==> Returning(t, answer) && t.procs[answer].role == Child)
            && (!g.pc.AtAccept? || answer < 0 ==> t.accepted == s.accepted)
  {
    assert PcOfRole(s.procs[ROOT].role, s.procs[ROOT].pc);
    RolesKept(s, ROOT, answer);
  }

  lemma OthersDoNotAccept(s: State, p: Pid, answer: int)
    requires RolesOk(s) && Enabled(s, p, answer) && p != ROOT
    ensures Step(s, p, answer).accepted == s.accepted
  {
    assert PcOfRole(s.procs[p].role, s.procs[p].pc);
    assert !s.procs[p].role.Grandfather?;
    hide RolesOk, Moved, Copy, Enabled;
  }

  lemma StoppedStep(s: State, p: Pid, answer: int)
    requires Inv(s) && s.procs[ROOT].pc.Stopped? && Enabled(s, p, answer)
    ensures var t := Step(s, p, answer);
            p != ROOT && ROOT in t.procs && t.procs[ROOT].pc == s.procs[ROOT].pc && t.accepted == s.accepted
  {
    assert p != ROOT;
    StepFrame(s, p, answer, ROOT);
    OthersDoNotAccept(s, p, answer);
    hide Inv, RolesOk, Step, Enabled, Moved, Copy, Waiting;
  }

  /** Stopped, it never moves again, and no connection is accepted, whatever the others do. */
  lemma {:induction false} StoppedForGood(s: State, moves: seq<Move>)
    requires Inv(s) && s.procs[ROOT].pc.Stopped? && Runnable(s, moves)
    ensures var t := Run(s, moves);
            ROOT in t.procs && t.procs[ROOT].pc == s.procs[ROOT].pc && t.accepted == s.accepted
    ensures TurnsOf(moves, ROOT) == 0
    decreases |moves|
  {
    if moves != [] {
      var m := moves[0];
      hide Inv, Step, Enabled;
      StoppedStep(s, m.pid, m.answer);
      InvKept(s, m.pid, m.answer);
      StoppedForGood(Step(s, m.pid, m.answer), moves[1..]);
    }
  }

  /** The exit codes: a grandson's is 0; a child's is 0 if it has forked a grandson, and 1 if that fork failed. */
  lemma ExitCodes(s: State, moves: seq<Move>, p: Pid)
    requires Reached(s, moves) && p in s.procs && s.procs[p].pc.Exited?
    ensures s.procs[p].role == Grandson ==> s.procs[p].pc.code == 0
    ensures s.procs[p].role == Child ==>
              (s.procs[p].pc.code == 0 <==> exists g :: IsGrandsonOf(s, g, s.procs[p].conn)) && s.procs[p].pc.code <= 1
  {
    ReachedInv(s, moves);
    var q := s.procs[p];
    assert PcOfRole(q.role, q.pc) && FamilyOf(s, p);
    hide Reached, TablesOk, ConnsOk, EntriesOk, CallsOk, Waiting;
    if q.role == Child && q.pc.code == 0 {
      assert IsGrandsonOf(s, q.pid, q.conn);
    }
    if q.role == Child && exists g :: IsGrandsonOf(s, g, q.conn) {
      var g :| IsGrandsonOf(s, g, q.conn);
      ParentForked(s, g, p);
    }
  }
}
