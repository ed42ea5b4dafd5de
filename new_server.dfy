/** The server of newServer.cpp: a persisted sequential token counter, a client
    registry, per-client sessions, admission control and shutdown. Every method
    is one atomic step: `Register`, `Unregister`, `GenerateUniqueId` and
    `Broadcast` are one critical section each, while `SessionStep`,
    `HandleClient` and `Shutdown` span several. Sockets are integer handles and
    every `send`/`close` is appended to `log`. */
module NewServer {
  import opened Bits
  import opened Wrappers
  import opened Wire
  import opened Registry
  import opened Tokens

  /** What the environment does during one iteration of the session loop: the
      clock reading (seconds since local midnight), whether the `send` of the
      token line succeeds, and the outcome of the `select`/`recv` that follows. */
  datatype Tick = Tick(seconds: u32, sendOk: bool, poll: Poll)

  predicate TicksWellFormed(ticks: seq<Tick>)
  {
    forall i :: 0 <= i < |ticks| ==> PollWellFormed(ticks[i].poll)
  }

  /** The loop is left when the token cannot be sent or when `recv` returns
      zero or an error. */
  predicate EndsSession(t: Tick)
  {
    !t.sendOk || (t.poll.Readable? && t.poll.valread <= 0)
  }

  /** The log of one loop iteration over registry `members` with counter `last`:
      the token line to the session's own socket, then, if the session goes on,
      one count broadcast per newline received. */
  function StepLog(sock: int, members: seq<int>, last: u32, t: Tick): seq<Event>
    requires PollWellFormed(t.poll)
  {
    [Send(sock, Line(NextId(t.seconds, last)))]
    + (if EndsSession(t) then [] else NewlineBroadcasts(Received(t.poll), members))
  }

  /** The log of the session loop over a sequence of ticks, up to and including
      the first tick that ends the session. */
  function SessionLog(sock: int, members: seq<int>, last: u32, ticks: seq<Tick>): seq<Event>
    requires TicksWellFormed(ticks)
    decreases |ticks|
  {
    if ticks == [] then []
    else
      StepLog(sock, members, last, ticks[0])
      + (if EndsSession(ticks[0]) then []
         else SessionLog(sock, members, NextLast(ticks[0].seconds, last), ticks[1..]))
  }

  /** The counter after the session loop: one token is generated per iteration,
      also in the iteration whose send fails. */
  function SessionLastId(last: u32, ticks: seq<Tick>): u32
    decreases |ticks|
  {
    if ticks == [] then last
    else if EndsSession(ticks[0]) then NextLast(ticks[0].seconds, last)
    else SessionLastId(NextLast(ticks[0].seconds, last), ticks[1..])
  }

  lemma TicksSuffix(ticks: seq<Tick>, i: nat)
    requires TicksWellFormed(ticks) && i <= |ticks|
    ensures TicksWellFormed(ticks[i..])
  {
    forall j | 0 <= j < |ticks[i..]| ensures PollWellFormed(ticks[i..][j].poll) {
      assert ticks[i..][j] == ticks[i + j];
    }
  }

  /** One iteration of the session loop, seen on the session log and the
      counter: `after` is the log once iteration `i` has run from `before`. */
  lemma Advance(sock: int, members: seq<int>, last: u32, ticks: seq<Tick>, i: nat,
                before: seq<Event>, after: seq<Event>)
    requires TicksWellFormed(ticks) && i < |ticks|
    requires after == before + StepLog(sock, members, last, ticks[i])
    ensures TicksWellFormed(ticks[i..]) && TicksWellFormed(ticks[i + 1..])
    ensures EndsSession(ticks[i]) ==>
              before + SessionLog(sock, members, last, ticks[i..]) == after
              && SessionLastId(last, ticks[i..]) == NextLast(ticks[i].seconds, last)
    ensures !EndsSession(ticks[i]) ==>
              var last' := NextLast(ticks[i].seconds, last);
              before + SessionLog(sock, members, last, ticks[i..])
                 == after + SessionLog(sock, members, last', ticks[i + 1..])
              && SessionLastId(last, ticks[i..]) == SessionLastId(last', ticks[i + 1..])
  {
    TicksSuffix(ticks, i);
    TicksSuffix(ticks, i + 1);
    assert ticks[i..][0] == ticks[i] && ticks[i..][1..] == ticks[i + 1..];
    if !EndsSession(ticks[i]) {
      var last' := NextLast(ticks[i].seconds, last);
      AppendAssoc(before, StepLog(sock, members, last, ticks[i]), SessionLog(sock, members, last', ticks[i + 1..]));
    }
  }

  /** The state of the session loop after `i` iterations, started from log
      `log0` and counter `last0`: while not `done`, what is left of the session
      log is the log of the remaining ticks; once `done`, the whole session log
      has been written. */
  ghost predicate LoopInv(sock: int, members: seq<int>, log0: seq<Event>, last0: u32, ticks: seq<Tick>,
                          i: nat, done: bool, log: seq<Event>, last: u32)
  {
    && TicksWellFormed(ticks) && |ticks| > 0 && EndsSession(ticks[|ticks| - 1])
    && i <= |ticks| && (!done ==> i < |ticks|)
    && TicksWellFormed(ticks[i..])
    && (!done ==>
          log0 + SessionLog(sock, members, last0, ticks) == log + SessionLog(sock, members, last, ticks[i..])
          && SessionLastId(last0, ticks) == SessionLastId(last, ticks[i..]))
    && (done ==>
          log == log0 + SessionLog(sock, members, last0, ticks)
          && last == SessionLastId(last0, ticks))
  }

  lemma LoopStart(sock: int, members: seq<int>, log0: seq<Event>, last0: u32, ticks: seq<Tick>)
    requires TicksWellFormed(ticks) && |ticks| > 0 && EndsSession(ticks[|ticks| - 1])
    ensures LoopInv(sock, members, log0, last0, ticks, 0, false, log0, last0)
  {
    assert ticks[0..] == ticks;
  }

  /** One iteration keeps the loop state. The values after the step are
      parameters tied to the old ones by `requires`, so that the loop body passes
      its own variables and its proof does not re-derive them from the terms. */
  lemma LoopAdvance(sock: int, members: seq<int>, log0: seq<Event>, last0: u32, ticks: seq<Tick>,
                    i: nat, log: seq<Event>, last: u32,
                    i': nat, done: bool, after: seq<Event>, last': u32)
    requires LoopInv(sock, members, log0, last0, ticks, i, false, log, last)
    requires i' == i + 1 && done == EndsSession(ticks[i])
    requires after == log + StepLog(sock, members, last, ticks[i]) && last' == NextLast(ticks[i].seconds, last)
    ensures LoopInv(sock, members, log0, last0, ticks, i', done, after, last')
  {
    Advance(sock, members, last, ticks, i, log, after);
    if !EndsSession(ticks[i]) {
      assert i != |ticks| - 1;
    }
  }

  /** An entry a session may log: a token line to its own socket, or a count
      line to a member of the registry it runs with. */
  ghost predicate Addressed(e: Event, sock: int, members: seq<int>)
  {
    e.Send?
    && ((e.socket == sock && exists v: nat :: v < TWO_32 && e.data == Line(v))
        || (e.socket in members && e.data == Line(|members|)))
  }

  lemma StepLogAddressees(sock: int, members: seq<int>, last: u32, t: Tick)
    requires PollWellFormed(t.poll)
    ensures forall e :: e in StepLog(sock, members, last, t) ==> Addressed(e, sock, members)
  {
    var line := Line(|members|);
    var id := NextId(t.seconds, last);
    var token := Send(sock, Line(id));
    assert Addressed(token, sock, members);
    var b := NewlineBroadcasts(Received(t.poll), members);
    NewlineBroadcastsAreCountBroadcasts(Received(t.poll), members);
    RepeatMembers(SendAll(members, line), NewlineCount(Received(t.poll)));
    SendAllMembers(members, line);
    assert forall e :: e in b ==> Addressed(e, sock, members);
    assert forall e :: e in StepLog(sock, members, last, t) ==> e == token || e in b;
  }

  /** A session's log holds token lines for its own socket and count lines for
      registry members, and nothing else. */
  lemma {:induction false} SessionLogAddressees(sock: int, members: seq<int>, last: u32, ticks: seq<Tick>)
    requires TicksWellFormed(ticks)
    ensures forall e :: e in SessionLog(sock, members, last, ticks) ==> Addressed(e, sock, members)
    decreases |ticks|
  {
    if ticks != [] {
      var t := ticks[0];
      var step := StepLog(sock, members, last, t);
      StepLogAddressees(sock, members, last, t);
      if EndsSession(t) {
        assert SessionLog(sock, members, last, ticks) == step + [];
      } else {
        TicksSuffix(ticks, 1);
        var last' := NextLast(t.seconds, last);
        var rest := SessionLog(sock, members, last', ticks[1..]);
        SessionLogAddressees(sock, members, last', ticks[1..]);
        assert SessionLog(sock, members, last, ticks) == step + rest;
      }
    }
  }

  lemma {:induction false} RepeatMembers<T>(xs: seq<T>, n: nat)
    ensures forall e :: e in Repeat(xs, n) ==> e in xs
  {
    if n > 0 {
      RepeatMembers(xs, n - 1);
    }
  }

  class MyServer {
    var clientSockets: seq<int>   // client_sockets
    var sessions: seq<int>        // client_threads: the handle each spawned session serves
    var running: bool
    var lastId: u32                // last_id
    var idFile: Option<u32>        // the side file ./last_id, None while it does not exist
    var log: seq<Event>

    /** What is in the side file is always the counter in memory. */
    ghost predicate Valid()
      reads this
    {
      idFile.Some? ==> idFile.value == lastId
    }

    /** Construction, with the side file as the previous run left it: the
        counter starts at 0 and `loadLastId` replaces it by the stored value. */
    constructor (file: Option<u32>)
      ensures Valid()
      ensures running && clientSockets == [] && sessions == [] && log == []
      ensures idFile == file && lastId == Loaded(file)
    {
      clientSockets, sessions, running, log := [], [], true, [];
      lastId, idFile := 0, file;
      new;
      LoadLastId();
    }

    method LoadLastId()
      modifies this`lastId
      ensures Valid()
      ensures lastId == if idFile.Some? then idFile.value else old(lastId)
    {
      if idFile.Some? {
        lastId := idFile.value;
      }
    }

    method SaveLastId()
      modifies this`idFile
      ensures Valid() && idFile == Some(lastId)
    {
      idFile := Some(lastId);
    }

    /** `generateUniqueId`: pack the seconds and the incremented counter, keep the
        new low half as the counter and persist it. */
    method GenerateUniqueId(seconds: u32) returns (id: u32)
      requires Valid()
      modifies this`lastId, this`idFile
      ensures Valid()
      ensures id == NextId(seconds, old(lastId))
      ensures id % TWO_16 == (old(lastId) + 1) % TWO_16
      ensures ShiftRight(id, 16) == seconds % TWO_16
      ensures lastId == NextLast(seconds, old(lastId)) == id % TWO_16 < TWO_16
      ensures idFile == Some(lastId)
    {
      NextIdBits(seconds, lastId);
      id := NextId(seconds, lastId);
      AndLow16(id);
      lastId := And(id, 0xFFFF);
      SaveLastId();
    }

    /** `broadcast`: one send of `msg` to every registered socket, in order. */
    method Broadcast(msg: string)
      modifies this`log
      ensures log == old(log) + SendAll(clientSockets, msg)
    {
      for i := 0 to |clientSockets|
        invariant log == old(log) + SendAll(clientSockets[..i], msg)
      {
        assert clientSockets[..i + 1][..i] == clientSockets[..i];
        log := log + [Send(clientSockets[i], msg)];
      }
      assert clientSockets[..|clientSockets|] == clientSockets;
    }

    /** The newline scan of `handleClient` over `buffer[0..valread)`. */
    method ScanBuffer(buffer: seq<byte>, valread: nat)
      requires valread <= |buffer|
      modifies this`log
      ensures log == old(log) + NewlineBroadcasts(buffer[..valread], clientSockets)
    {
      for i := 0 to valread
        invariant log == old(log) + NewlineBroadcasts(buffer[..i], clientSockets)
      {
        assert buffer[..i + 1][..i] == buffer[..i];
        if buffer[i] == NEWLINE {
          Broadcast(Line(|clientSockets|));
        }
      }
    }

    /** One iteration of the session loop: issue and send a token, then handle
        the poll. Returns whether the loop is left. */
    method SessionStep(sock: int, t: Tick) returns (exit: bool)
      requires Valid() && PollWellFormed(t.poll)
      modifies this`lastId, this`idFile, this`log
      ensures Valid()
      ensures exit == EndsSession(t)
      ensures lastId == NextLast(t.seconds, old(lastId)) && idFile == Some(lastId)
      ensures log == old(log) + StepLog(sock, clientSockets, old(lastId), t)
    {
      var id := GenerateUniqueId(t.seconds);
      log := log + [Send(sock, Line(id))];
      if !t.sendOk {
        return true;
      }
      match t.poll
      case Idle =>
        exit := false;
      case Readable(valread, buffer) =>
        if valread <= 0 {
          return true;
        }
        assert Received(t.poll) == buffer[..valread];
        ScanBuffer(buffer, valread);
        exit := false;
    }

    /** The `while (running)` loop of `handleClient` with `sock` registered: the
        session's iterations while `running` holds, up to the tick that ends it. */
    method SessionLoop(sock: int, ticks: seq<Tick>)
      requires Valid() && TicksWellFormed(ticks)
      requires |ticks| > 0 && EndsSession(ticks[|ticks| - 1])
      modifies this`lastId, this`idFile, this`log
      ensures Valid()
      ensures running ==>
                log == old(log) + SessionLog(sock, clientSockets, old(lastId), ticks)
                && lastId == SessionLastId(old(lastId), ticks) && idFile == Some(lastId)
      ensures !running ==> log == old(log) && lastId == old(lastId) && idFile == old(idFile)
    {
      var i, done := 0, false;
      LoopStart(sock, clientSockets, log, lastId, ticks);
      // Nothing in a session clears `running`, so the `while (running)` test
      // gives the same answer on every iteration.
      if !running {
        return;
      }
      while !done
        invariant Valid() && (done ==> idFile == Some(lastId))
        invariant LoopInv(sock, clientSockets, old(log), old(lastId), ticks, i, done, log, lastId)
        decreases |ticks| - i
      {
        ghost var before, prev := log, lastId;
        done := SessionStep(sock, ticks[i]);
        ghost var k := i;
        i := i + 1;
        LoopAdvance(sock, clientSockets, old(log), old(lastId), ticks, k, before, prev, i, done, log, lastId);
      }
    }

    /** The `push_back` critical section at the start of `handleClient`. */
    method Register(sock: int)
      modifies this`clientSockets
      ensures clientSockets == old(clientSockets) + [sock]
    {
      clientSockets := clientSockets + [sock];
    }

    /** The erase-remove critical section at the end of `handleClient`. */
    method Unregister(sock: int)
      modifies this`clientSockets
      ensures clientSockets == RemoveAll(old(clientSockets), sock)
    {
      clientSockets := RemoveAll(clientSockets, sock);
    }

    /** `handleClient`, driven by the ticks of a peer that eventually goes away
        (the last tick ends the session): register, loop, then erase-remove the
        socket and close it. The registry ends as it was, less every copy of
        `sock`. */
    method HandleClient(sock: int, ticks: seq<Tick>)
      requires Valid() && TicksWellFormed(ticks)
      requires |ticks| > 0 && EndsSession(ticks[|ticks| - 1])
      modifies this`clientSockets, this`lastId, this`idFile, this`log
      ensures Valid()
      ensures clientSockets == RemoveAll(old(clientSockets), sock)
      ensures old(running) ==>
                log == old(log) + SessionLog(sock, old(clientSockets) + [sock], old(lastId), ticks) + [Close(sock)]
                && lastId == SessionLastId(old(lastId), ticks) && idFile == Some(lastId)
      ensures !old(running) ==> log == old(log) + [Close(sock)] && lastId == old(lastId) && idFile == old(idFile)
    {
      Register(sock);
      SessionLoop(sock, ticks);
      Unregister(sock);
      log := log + [Close(sock)];
      RegisterThenRemove(old(clientSockets), sock);
    }

    /** The admission branch of `run` for one pass of the accept loop: a handle
        is given a session only while fewer than MAX_CLIENTS are registered;
        otherwise it gets "server full\n" and is closed without registering. */
    method AcceptStep(incoming: Incoming) returns (spawned: bool)
      modifies this`sessions, this`log
      ensures spawned <==> incoming.Accepted? && incoming.clientSocket >= 0 && |clientSockets| < MAX_CLIENTS
      ensures spawned ==> sessions == old(sessions) + [incoming.clientSocket] && log == old(log)
      ensures !spawned ==> sessions == old(sessions)
      ensures !spawned && incoming.Accepted? && incoming.clientSocket >= 0 ==>
                log == old(log) + [Send(incoming.clientSocket, SERVER_FULL), Close(incoming.clientSocket)]
                && |SERVER_FULL| == 12
      ensures !(incoming.Accepted? && incoming.clientSocket >= 0) ==> log == old(log)
    {
      spawned := false;
      if incoming.Accepted? && incoming.clientSocket >= 0 {
        var clientSocket := incoming.clientSocket;
        if |clientSockets| < MAX_CLIENTS {
          sessions := sessions + [clientSocket];
          spawned := true;
        } else {
          log := log + [Send(clientSocket, SERVER_FULL), Close(clientSocket)];
        }
      }
    }

    /** `shutdown`: stop the loops, say goodbye to every member, close every
        member, empty the registry, close the listening socket. */
    method Shutdown()
      modifies this`running, this`log, this`clientSockets
      ensures !running && clientSockets == []
      ensures log == old(log) + SendAll(old(clientSockets), THANK_YOU) + CloseAll(old(clientSockets)) + [CloseListener]
    {
      running := false;
      Broadcast(THANK_YOU);
      ghost var farewell := log;
      for i := 0 to |clientSockets|
        invariant !running && clientSockets == old(clientSockets)
        invariant log == farewell + CloseAll(clientSockets[..i])
      {
        assert clientSockets[..i + 1][..i] == clientSockets[..i];
        log := log + [Close(clientSockets[i])];
      }
      assert clientSockets[..|clientSockets|] == clientSockets;
      clientSockets := [];
      log := log + [CloseListener];
    }
  }

  /** The restart round trip through the side file: a call of
      `generateUniqueId` persists the counter, a new server loads it, and that
      server's first token continues the counter where the old one stopped. */
  method ResumeAcrossRestart(s: MyServer, seconds: u32, later: u32) returns (restarted: MyServer, id: u32, next: u32)
    requires s.Valid()
    modifies s`lastId, s`idFile
    ensures fresh(restarted) && restarted.Valid()
    ensures id == NextId(seconds, old(s.lastId)) && s.idFile == Some(s.lastId) && s.lastId == id % TWO_16
    ensures next == NextId(later, s.lastId)
    ensures next % TWO_16 == (id % TWO_16 + 1) % TWO_16
    ensures restarted.lastId == NextLast(later, s.lastId) && restarted.idFile == Some(restarted.lastId)
  {
    id := s.GenerateUniqueId(seconds);
    restarted := new MyServer(s.idFile);
    next := restarted.GenerateUniqueId(later);
  }
}
