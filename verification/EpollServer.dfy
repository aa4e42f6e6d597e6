/** The event loop of sample_epoll/echo_server.cpp. The kernel's answers are parameters; what POSIX and epoll
    promise about them is stated in AnswerOk and RoundOk. */
module EpollServer {
  type Fd = int

  datatype Source = Listener | Connection(id: nat)

  const MAX_EVENTS := 1000  // the slots of evs, and the bound on cur_fds at which accept stops

  /** The answers to the calls made while one event is handled: the descriptor accept returns, whether epoll_ctl
      adds it, and the count read returns. Only those of the branch taken matter. */
  datatype Answer = Answer(accepted: int, added: bool, count: int)

  /** The loop's variables and the kernel's tables: open descriptors and the epoll set. */
  datatype Server = Server(open: set<Fd>, registered: map<Fd, Source>, curFds: int, accepted: nat,
                           listening: Fd, running: bool)

  /** accept returns a descriptor that is not open, and read on a listening socket fails. */
  predicate AnswerOk(s: Server, fd: Fd, a: Answer) {
    a.accepted !in s.open && (fd in s.registered && s.registered[fd] == Listener ==> a.count < 0)
  }

  /** One iteration of the batch loop. close() takes a descriptor out of the epoll set, so the epoll_ctl that
      follows it in the source finds nothing to delete. */
  function Handle(s: Server, fd: Fd, a: Answer): (t: Server) {
    if fd == s.listening && s.curFds < MAX_EVENTS then
      if a.accepted < 0 then s.(running := false)
      else if !a.added then s.(running := false, open := s.open + {a.accepted}, accepted := s.accepted + 1)
      else s.(open := s.open + {a.accepted}, registered := s.registered[a.accepted := Connection(s.accepted)],
              curFds := s.curFds + 1, accepted := s.accepted + 1)
    else if a.count <= 0 then
      s.(open := s.open - {fd}, registered := s.registered - {fd}, curFds := s.curFds - 1)
    else s
  }

  /** Handling the event ends the server: accept or the registration of what it returns fails. */
  predicate Fails(s: Server, fd: Fd, a: Answer) {
    fd == s.listening && s.curFds < MAX_EVENTS && (a.accepted < 0 || !a.added)
  }

  /** The open descriptors that are not in the epoll set. */
  function Unwatched(s: Server): (fds: set<Fd>) {
    s.open - s.registered.Keys
  }

  /** The batch loop from a given event on; a return statement ends it. */
  function HandleAll(s: Server, evs: seq<Fd>, answers: seq<Answer>): (t: Server)
    requires |evs| == |answers|
    decreases |evs|
  {
    if evs == [] || !s.running then s else HandleAll(Handle(s, evs[0], answers[0]), evs[1..], answers[1..])
  }

  predicate AnswersOk(s: Server, evs: seq<Fd>, answers: seq<Answer>)
    requires |evs| == |answers|
    decreases |evs|
  {
    evs == [] || !s.running ||
    (AnswerOk(s, evs[0], answers[0]) && AnswersOk(Handle(s, evs[0], answers[0]), evs[1..], answers[1..]))
  }

  /** What one epoll_wait reports, with the answers to come while the batch is handled. */
  datatype Round = WaitFails | Ready(evs: seq<Fd>, answers: seq<Answer>)

  predicate Distinct(evs: seq<Fd>) {
    forall i, j :: 0 <= i < j < |evs| ==> evs[i] != evs[j]
  }

  /** epoll_wait reports at most cur_fds distinct registered descriptors, and fails when cur_fds is not positive. */
  predicate RoundOk(s: Server, r: Round) {
    r.Ready? ==>
      && s.curFds > 0 && |r.evs| <= s.curFds && |r.evs| == |r.answers|
      && Distinct(r.evs) && (forall i :: 0 <= i < |r.evs| ==> r.evs[i] in s.registered)
      && AnswersOk(s, r.evs, r.answers)
  }

  function Serve(s: Server, r: Round): (t: Server)
    requires RoundOk(s, r)
  {
    if r.WaitFails? then s.(running := false) else HandleAll(s, r.evs, r.answers)
  }

  predicate RoundsOk(s: Server, rounds: seq<Round>)
    decreases |rounds|
  {
    rounds == [] || !s.running || (RoundOk(s, rounds[0]) && RoundsOk(Serve(s, rounds[0]), rounds[1..]))
  }

  function ServeAll(s: Server, rounds: seq<Round>): (t: Server)
    requires RoundsOk(s, rounds)
    decreases |rounds|
  {
    if rounds == [] || !s.running then s else ServeAll(Serve(s, rounds[0]), rounds[1..])
  }

  /** The counter is the size of the epoll set and fits the event array; the listening number, while registered,
      is the listener, and every other registration is a different connection. */
  predicate Inv(s: Server) {
    && s.curFds == |s.registered| && s.curFds <= MAX_EVENTS
    && s.registered.Keys <= s.open
    && (forall fd :: fd in s.registered ==>
          if fd == s.listening then s.registered[fd] == Listener
          else s.registered[fd].Connection? && s.registered[fd].id < s.accepted)
    && (forall fd, gd :: fd in s.registered && gd in s.registered && s.registered[fd] == s.registered[gd] ==> fd == gd)
  }

  function Start(open: set<Fd>, listening: Fd): (t: Server) {
    Server(open + {listening}, map[listening := Listener], 1, 0, listening, true)
  }

  /** One event: the counter keeps agreeing with the set, a connection leaves it exactly when its read gives no
      data, the listener exactly when its event comes at capacity, and the counter moves by what was accepted less
      what left. */
  lemma HandleKeepsInv(s: Server, fd: Fd, a: Answer)
    requires Inv(s) && fd in s.registered && AnswerOk(s, fd, a)
    ensures Inv(Handle(s, fd, a))
    ensures s.listening in s.registered ==>
              (s.listening !in Handle(s, fd, a).registered <==> fd == s.listening && s.curFds == MAX_EVENTS)
    ensures var t := Handle(s, fd, a);
            && (fd != s.listening ==> (fd !in t.registered <==> a.count <= 0))
            && (t.running ==>
                  t.curFds == s.curFds + (t.accepted - s.accepted) - (if fd in t.registered then 0 else 1))
  {
  }

  /** What becomes of the descriptors: while the server runs, every descriptor that leaves the epoll set is closed and
      every one accepted enters it; it stops exactly on a failure, which changes no registration and leaves open
      what it accepted. An event with data changes nothing. */
  lemma HandleEffects(s: Server, fd: Fd, a: Answer)
    requires Inv(s) && fd in s.registered && AnswerOk(s, fd, a)
    ensures var t := Handle(s, fd, a);
            && (t.running <==> s.running && !Fails(s, fd, a))
            && (!Fails(s, fd, a) ==> Unwatched(t) == Unwatched(s))
            && (Fails(s, fd, a) ==>
                  && t.registered == s.registered && t.curFds == s.curFds
                  && t.open == s.open + (if a.accepted < 0 then {} else {a.accepted}))
            && (fd == s.listening && s.curFds < MAX_EVENTS && !Fails(s, fd, a) ==>
                  t.registered == s.registered[a.accepted := Connection(s.accepted)])
            && (fd != s.listening && a.count > 0 ==> t == s)
            && (fd != s.listening && a.count <= 0 ==> t.registered == s.registered - {fd})
  {
  }

  /** Handling one event leaves the registration of every other one as it was. */
  lemma OthersKept(s: Server, fd: Fd, a: Answer, other: Fd)
    requires Inv(s) && fd in s.registered && AnswerOk(s, fd, a) && other in s.registered && other != fd
    ensures var t := Handle(s, fd, a); other in t.registered && t.registered[other] == s.registered[other]
  {
  }

  /** Batch validity and agreement mid-batch: before the i-th event is handled the counter agrees with the set, and
      the event's descriptor is still registered for the very source it was reported for, whatever the events
      before it closed and accepted under reused numbers. */
  lemma {:induction false} BatchValid(s: Server, evs: seq<Fd>, answers: seq<Answer>, i: nat)
    requires Inv(s) && Distinct(evs) && |evs| == |answers| && AnswersOk(s, evs, answers) && i <= |evs|
    requires forall k :: 0 <= k < |evs| ==> evs[k] in s.registered
    ensures var t := HandleAll(s, evs[..i], answers[..i]);
            && Inv(t)
            && (t.running && i < |evs| ==>
                  && evs[i] in t.registered && t.registered[evs[i]] == s.registered[evs[i]]
                  && AnswerOk(t, evs[i], answers[i]))
    decreases i
  {
    if i > 0 && s.running {
      var t := Handle(s, evs[0], answers[0]);
      HandleKeepsInv(s, evs[0], answers[0]);
      forall k | 1 <= k < |evs|
        ensures evs[k] in t.registered && t.registered[evs[k]] == s.registered[evs[k]]
      {
        OthersKept(s, evs[0], answers[0], evs[k]);
      }
      BatchValid(t, evs[1..], answers[1..], i - 1);
      assert evs[..i][1..] == evs[1..][..i - 1] && answers[..i][1..] == answers[1..][..i - 1];
    }
  }

  /** A batch ends the server exactly when one of its events, in the state left by those before it, fails; while it
      runs, the descriptors outside the epoll set stay the same. */
  lemma {:induction false} BatchRuns(s: Server, evs: seq<Fd>, answers: seq<Answer>)
    requires Inv(s) && Distinct(evs) && |evs| == |answers| && AnswersOk(s, evs, answers)
    requires forall k :: 0 <= k < |evs| ==> evs[k] in s.registered
    ensures var t := HandleAll(s, evs, answers);
            && (t.running <==> s.running && forall i :: 0 <= i < |evs| ==>
                                 !Fails(HandleAll(s, evs[..i], answers[..i]), evs[i], answers[i]))
            && (t.running ==> Unwatched(t) == Unwatched(s))
    decreases |evs|
  {
    if evs != [] && s.running {
      var t := Handle(s, evs[0], answers[0]);
      HandleKeepsInv(s, evs[0], answers[0]);
      HandleEffects(s, evs[0], answers[0]);
      forall k | 1 <= k < |evs|
        ensures evs[k] in t.registered
      {
        OthersKept(s, evs[0], answers[0], evs[k]);
      }
      hide Inv, Handle, Fails, AnswerOk, Unwatched;
      BatchRuns(t, evs[1..], answers[1..]);
      forall i | 1 <= i < |evs|
        ensures HandleAll(s, evs[..i], answers[..i]) == HandleAll(t, evs[1..][..i - 1], answers[1..][..i - 1])
      {
        assert evs[..i][1..] == evs[1..][..i - 1] && answers[..i][1..] == answers[1..][..i - 1];
      }
      assert HandleAll(s, evs[..0], answers[..0]) == s;
      assert forall i :: 1 <= i < |evs| ==> evs[i] == evs[1..][i - 1] && answers[i] == answers[1..][i - 1];
    }
  }

  lemma ServeKeepsInv(s: Server, r: Round)
    requires Inv(s) && RoundOk(s, r)
    ensures Inv(Serve(s, r))
  {
    if r.Ready? {
      BatchValid(s, r.evs, r.answers, |r.evs|);
      assert r.evs[..|r.evs|] == r.evs && r.answers[..|r.answers|] == r.answers;
    }
  }

  lemma ServeRuns(s: Server, r: Round)
    requires Inv(s) && RoundOk(s, r)
    ensures var t := Serve(s, r);
            && (r.WaitFails? ==> t == s.(running := false))
            && (t.running ==> s.running && r.Ready? && Unwatched(t) == Unwatched(s))
  {
    hide Inv, Unwatched;
    if r.Ready? {
      BatchRuns(s, r.evs, r.answers);
    }
  }

  /** Epoll agreement over whole runs: at every wait the capacity passed to epoll_wait is the size of the set and
      no more than the array has slots. */
  lemma {:induction false} RunsAgree(s: Server, rounds: seq<Round>)
    requires Inv(s) && RoundsOk(s, rounds)
    ensures Inv(ServeAll(s, rounds))
    ensures ServeAll(s, rounds).running ==>
              && s.running && (forall r :: 0 <= r < |rounds| ==> rounds[r].Ready?)
              && Unwatched(ServeAll(s, rounds)) == Unwatched(s)
    decreases |rounds|
  {
    hide Inv, HandleAll, AnswersOk, Unwatched;
    if rounds != [] && s.running {
      ServeRuns(s, rounds[0]);
      ServeKeepsInv(s, rounds[0]);
      RunsAgree(Serve(s, rounds[0]), rounds[1..]);
    }
  }

  lemma StartAgrees(open: set<Fd>, listening: Fd, rounds: seq<Round>)
    requires RoundsOk(Start(open, listening), rounds)
    ensures var t := ServeAll(Start(open, listening), rounds);
            && Inv(t)
            && (t.running ==> t.open - t.registered.Keys == open - {listening})
  {
    RunsAgree(Start(open, listening), rounds);
  }

  /** t is s after some registrations have gone and none has come. */
  predicate Shrunk(s: Server, t: Server) {
    && t.registered.Keys <= s.registered.Keys && t.curFds <= s.curFds && t.accepted == s.accepted
    && t.listening == s.listening
    && forall fd :: fd in t.registered ==> t.registered[fd] == s.registered[fd]
  }

  lemma {:induction false} BatchOnlyShrinks(s: Server, evs: seq<Fd>, answers: seq<Answer>)
    requires Inv(s) && s.listening !in s.registered
    requires Distinct(evs) && |evs| == |answers| && AnswersOk(s, evs, answers)
    requires forall k :: 0 <= k < |evs| ==> evs[k] in s.registered
    ensures Shrunk(s, HandleAll(s, evs, answers))
    decreases |evs|
  {
    if evs != [] && s.running {
      var t := Handle(s, evs[0], answers[0]);
      HandleKeepsInv(s, evs[0], answers[0]);
      BatchOnlyShrinks(t, evs[1..], answers[1..]);
    }
  }

  /** Once the listener has been dropped at capacity, nothing is ever accepted again: the set only shrinks. */
  lemma {:induction false} OnlyShrinks(s: Server, rounds: seq<Round>)
    requires Inv(s) && RoundsOk(s, rounds) && s.listening !in s.registered
    ensures Shrunk(s, ServeAll(s, rounds))
    decreases |rounds|
  {
    if rounds != [] && s.running {
      ServeKeepsInv(s, rounds[0]);
      if rounds[0].Ready? {
        BatchOnlyShrinks(s, rounds[0].evs, rounds[0].answers);
      }
      OnlyShrinks(Serve(s, rounds[0]), rounds[1..]);
    }
  }

  // ----- the loop itself

  lemma CapacityFits(s: Server)
    requires Inv(s)
    ensures s.curFds <= MAX_EVENTS
  {
  }

  lemma {:induction false} HandleAllSnoc(s: Server, evs: seq<Fd>, answers: seq<Answer>, i: nat)
    requires |evs| == |answers| && i < |evs|
    ensures var t := HandleAll(s, evs[..i], answers[..i]);
            t.running ==>
              var u := Handle(t, evs[i], answers[i]);
              && HandleAll(s, evs[..i + 1], answers[..i + 1]) == u
              && (!u.running ==> HandleAll(s, evs, answers) == u)
    decreases i
  {
    hide Handle;
    if s.running {
      var u := Handle(s, evs[0], answers[0]);
      if i == 0 {
        assert evs[..1][1..] == [] && answers[..1][1..] == [];
        assert HandleAll(u, [], []) == u;
      } else {
        HandleAllSnoc(u, evs[1..], answers[1..], i - 1);
        assert evs[..i][1..] == evs[1..][..i - 1] && answers[..i][1..] == answers[1..][..i - 1];
        assert evs[..i + 1][1..] == evs[1..][..i] && answers[..i + 1][1..] == answers[1..][..i];
      }
    }
  }

  class EventLoop {
    const listening: Fd
    const evs: array<Fd>
    var open: set<Fd>
    var registered: map<Fd, Source>
    var curFds: int
    var accepted: nat
    var running: bool

    ghost predicate Valid()
      reads this
    {
      evs.Length == MAX_EVENTS && Inv(Abs())
    }

    ghost function Abs(): (t: Server)
      reads this
    {
      Server(open, registered, curFds, accepted, listening, running)
    }

    constructor (others: set<Fd>, listening: Fd)
      ensures Valid() && fresh(evs) && Abs() == Start(others, listening)
    {
      this.listening := listening;
      evs := new Fd[MAX_EVENTS];
      open := others + {listening};
      registered := map[listening := Listener];
      curFds := 1;
      accepted := 0;
      running := true;
    }

    /** epoll_wait(epoll_fd, evs, capacity, -1): fills the front of the array. */
    method EpollWait(r: Round, capacity: int) returns (waitFds: int)
      requires r.Ready? ==> |r.evs| <= capacity <= evs.Length
      modifies evs
      ensures waitFds == if r.Ready? then |r.evs| else -1
      ensures r.Ready? ==> evs[..waitFds] == r.evs
    {
      if r.WaitFails? {
        return -1;
      }
      waitFds := 0;
      while waitFds < |r.evs|
        invariant 0 <= waitFds <= |r.evs|
        invariant evs[..waitFds] == r.evs[..waitFds]
      {
        evs[waitFds] := r.evs[waitFds];
        waitFds := waitFds + 1;
      }
    }

    method CloseFd(fd: Fd)
      modifies this`open, this`registered
      ensures open == old(open) - {fd} && registered == old(registered) - {fd}
    {
      open := open - {fd};
      registered := registered - {fd};
    }

    /** epoll_ctl(epoll_fd, EPOLL_CTL_DEL, fd, ...), which refuses a descriptor that is not open. */
    method EpollDel(fd: Fd)
      modifies this`registered
      ensures registered == if fd in open then old(registered) - {fd} else old(registered)
    {
      if fd in open {
        registered := registered - {fd};
      }
    }

    method HandleEvent(fd: Fd, a: Answer)
      requires Valid() && fd in registered && AnswerOk(Abs(), fd, a)
      modifies this
      ensures Valid() && Abs() == Handle(old(Abs()), fd, a)
    {
      HandleKeepsInv(Abs(), fd, a);
      hide Inv;
      if fd == listening && curFds < MAX_EVENTS {
        if a.accepted < 0 {
          running := false;
          return;
        }
        open := open + {a.accepted};
        if a.added {
          registered := registered[a.accepted := Connection(accepted)];
          curFds := curFds + 1;
        } else {
          running := false;
        }
        accepted := accepted + 1;
        return;
      }
      if a.count <= 0 {
        CloseFd(fd);
        EpollDel(fd);
        curFds := curFds - 1;
      }
    }

    /** The batch loop over the first waitFds slots of evs. */
    method HandleBatch(waitFds: int, answers: seq<Answer>)
      requires Valid() && 0 <= waitFds <= evs.Length && waitFds == |answers| && running
      requires var batch := evs[..waitFds];
               && Distinct(batch) && AnswersOk(Abs(), batch, answers)
               && forall k :: 0 <= k < |batch| ==> batch[k] in registered
      modifies this
      ensures Valid() && Abs() == HandleAll(old(Abs()), evs[..waitFds], answers)
    {
      hide Inv, Handle;
      ghost var before, batch := Abs(), evs[..waitFds];
      var i := 0;
      while i < waitFds
        invariant 0 <= i <= waitFds && Valid() && running
        invariant Abs() == HandleAll(before, batch[..i], answers[..i])
      {
        BatchValid(before, batch, answers, i);
        HandleAllSnoc(before, batch, answers, i);
        assert evs[i] == batch[i];
        HandleEvent(evs[i], answers[i]);
        if !running {
          return;
        }
        i := i + 1;
      }
      assert batch[..i] == batch && answers[..i] == answers;
    }

    method Loop(rounds: seq<Round>)
      requires Valid() && RoundsOk(Abs(), rounds)
      modifies this, evs
      ensures Valid() && Abs() == ServeAll(old(Abs()), rounds)
    {
      hide Inv, HandleAll, AnswersOk;
      var n := 0;
      ghost var whole := ServeAll(Abs(), rounds);
      assert rounds[0..] == rounds;
      while n < |rounds| && running
        invariant 0 <= n <= |rounds| && Valid() && RoundsOk(Abs(), rounds[n..])
        invariant whole == ServeAll(Abs(), rounds[n..])
      {
        var r := rounds[n];
        assert rounds[n..][1..] == rounds[n + 1..];
        ServeKeepsInv(Abs(), r);
        CapacityFits(Abs());
        var waitFds := EpollWait(r, curFds);
        if waitFds == -1 {
          running := false;
        } else {
          HandleBatch(waitFds, r.answers);
        }
        n := n + 1;
      }
    }
  }
}
