/** The server of server.cpp: the registry, admission control and newline
    broadcast of newServer.cpp, with an in-memory random token policy that
    retries `rand()` until the token is not in `used_ids`. Unlike newServer.cpp,
    a session ignores the result of the token `send`, so only `recv` ends it, and
    `shutdown` closes the listening socket under the registry lock and joins no
    session. `rand()` is an oracle:
    each call of the generator is handed the values its calls of `rand()` return. */
module Server {
  import opened Bits
  import opened Wire
  import opened Registry
  import opened Tokens

  /** What the environment does during one iteration of the session loop: the
      clock reading, the values `rand()` yields to the generator's retry loop,
      and the outcome of the `select`/`recv` that follows. The result of the
      `send` of the token line is not looked at. */
  datatype Tick = Tick(seconds: u32, draws: seq<nat>, poll: Poll)

  predicate TicksWellFormed(ticks: seq<Tick>)
  {
    forall i :: 0 <= i < |ticks| ==> PollWellFormed(ticks[i].poll)
  }

  /** The loop is left only when `recv` returns zero or an error. */
  predicate EndsSession(t: Tick)
  {
    t.poll.Readable? && t.poll.valread <= 0
  }

  /** The draws of a tick reach a token that is not yet issued. */
  predicate DrawsReachFree(used: set<u32>, t: Tick)
  {
    exists k :: 0 <= k < |t.draws| && Candidate(t.seconds, t.draws[k]) !in used
  }

  /** The token the retry loop settles on. */
  ghost function Issued(used: set<u32>, t: Tick): u32
    requires DrawsReachFree(used, t)
  {
    Candidate(t.seconds, t.draws[FirstFree(t.seconds, t.draws, used)])
  }

  /** Oracle fairness along a session: every iteration's draws reach a free token. */
  ghost predicate SessionFair(used: set<u32>, ticks: seq<Tick>)
    decreases |ticks|
  {
    ticks == []
    || (DrawsReachFree(used, ticks[0])
        && (EndsSession(ticks[0]) || SessionFair(used + {Issued(used, ticks[0])}, ticks[1..])))
  }

  /** The log of one loop iteration: the token line, then one count broadcast
      per newline received. */
  ghost function StepLog(sock: int, members: seq<int>, used: set<u32>, t: Tick): seq<Event>
    requires PollWellFormed(t.poll) && DrawsReachFree(used, t)
  {
    [Send(sock, Line(Issued(used, t)))] + NewlineBroadcasts(Received(t.poll), members)
  }

  /** The log of the session loop, up to and including the first tick that ends it. */
  ghost function SessionLog(sock: int, members: seq<int>, used: set<u32>, ticks: seq<Tick>): seq<Event>
    requires TicksWellFormed(ticks) && SessionFair(used, ticks)
    decreases |ticks|
  {
    if ticks == [] then []
    else
      assert TicksWellFormed(ticks[1..]) by {
        forall j | 0 <= j < |ticks[1..]| ensures PollWellFormed(ticks[1..][j].poll) {
          assert ticks[1..][j] == ticks[j + 1];
        }
      }
      StepLog(sock, members, used, ticks[0])
      + (if EndsSession(ticks[0]) then []
         else SessionLog(sock, members, used + {Issued(used, ticks[0])}, ticks[1..]))
  }

  /** `used_ids` after the session loop. */
  ghost function SessionUsed(used: set<u32>, ticks: seq<Tick>): set<u32>
    requires SessionFair(used, ticks)
    decreases |ticks|
  {
    if ticks == [] then used
    else if EndsSession(ticks[0]) then used + {Issued(used, ticks[0])}
    else SessionUsed(used + {Issued(used, ticks[0])}, ticks[1..])
  }

  /** `used_ids` only grows over a session. */
  lemma {:induction false} SessionUsedGrows(used: set<u32>, ticks: seq<Tick>)
    requires SessionFair(used, ticks)
    ensures used <= SessionUsed(used, ticks)
    ensures ticks != [] ==> |SessionUsed(used, ticks)| > |used|
    decreases |ticks|
  {
    if ticks != [] && !EndsSession(ticks[0]) {
      var t := ticks[0];
      var id := Issued(used, t);
      assert id !in used;
      SessionUsedGrows(used + {id}, ticks[1..]);
    }
  }

  lemma TicksSuffix(ticks: seq<Tick>, i: nat)
    requires TicksWellFormed(ticks) && i <= |ticks|
    ensures TicksWellFormed(ticks[i..])
  {
    forall j | 0 <= j < |ticks[i..]| ensures PollWellFormed(ticks[i..][j].poll) {
      assert ticks[i..][j] == ticks[i + j];
    }
  }

  /** The draws of the next iteration of a fair session reach a free token. */
  lemma FairHead(used: set<u32>, ticks: seq<Tick>, i: nat)
    requires i < |ticks| && SessionFair(used, ticks[i..])
    ensures DrawsReachFree(used, ticks[i])
  {
    assert ticks[i..][0] == ticks[i];
  }

  /** One iteration of the session loop, seen on the session log and the used
      set: `after` is the log once iteration `i` has run from `before`. */
  lemma Advance(sock: int, members: seq<int>, used: set<u32>, ticks: seq<Tick>, i: nat,
                before: seq<Event>, after: seq<Event>)
    requires TicksWellFormed(ticks) && i < |ticks| && SessionFair(used, ticks[i..])
    requires DrawsReachFree(used, ticks[i])
    requires after == before + StepLog(sock, members, used, ticks[i])
    ensures TicksWellFormed(ticks[i..]) && TicksWellFormed(ticks[i + 1..])
    ensures EndsSession(ticks[i]) ==>
              before + SessionLog(sock, members, used, ticks[i..]) == after
              && SessionUsed(used, ticks[i..]) == used + {Issued(used, ticks[i])}
    ensures !EndsSession(ticks[i]) ==>
              var used' := used + {Issued(used, ticks[i])};
              SessionFair(used', ticks[i + 1..])
              && before + SessionLog(sock, members, used, ticks[i..])
                 == after + SessionLog(sock, members, used', ticks[i + 1..])
              && SessionUsed(used, ticks[i..]) == SessionUsed(used', ticks[i + 1..])
  {
    TicksSuffix(ticks, i);
    TicksSuffix(ticks, i + 1);
    assert ticks[i..][0] == ticks[i] && ticks[i..][1..] == ticks[i + 1..];
    if !EndsSession(ticks[i]) {
      var used' := used + {Issued(used, ticks[i])};
      AppendAssoc(before, StepLog(sock, members, used, ticks[i]), SessionLog(sock, members, used', ticks[i + 1..]));
    }
  }

  /** The state of the session loop after `i` iterations, started from log
      `log0` and used set `used0`: while not `done`, the rest of the session is
      fair and what is left of the session log is the log of the remaining
      ticks; once `done`, the whole session log has been written. */
  ghost predicate LoopInv(sock: int, members: seq<int>, log0: seq<Event>, used0: set<u32>, ticks: seq<Tick>,
                          i: nat, done: bool, log: seq<Event>, used: set<u32>)
  {
    && TicksWellFormed(ticks) && SessionFair(used0, ticks)
    && |ticks| > 0 && EndsSession(ticks[|ticks| - 1])
    && i <= |ticks| && (!done ==> i < |ticks|)
    && TicksWellFormed(ticks[i..])
    && (!done ==>
          SessionFair(used, ticks[i..])
          && log0 + SessionLog(sock, members, used0, ticks) == log + SessionLog(sock, members, used, ticks[i..])
          && SessionUsed(used0, ticks) == SessionUsed(used, ticks[i..]))
    && (done ==>
          log == log0 + SessionLog(sock, members, used0, ticks)
          && used == SessionUsed(used0, ticks))
  }

  lemma LoopStart(sock: int, members: seq<int>, log0: seq<Event>, used0: set<u32>, ticks: seq<Tick>)
    requires TicksWellFormed(ticks) && SessionFair(used0, ticks)
    requires |ticks| > 0 && EndsSession(ticks[|ticks| - 1])
    ensures LoopInv(sock, members, log0, used0, ticks, 0, false, log0, used0)
  {
    assert ticks[0..] == ticks;
  }

  /** Before an iteration, the draws of the current tick reach a free token. */
  lemma LoopHead(sock: int, members: seq<int>, log0: seq<Event>, used0: set<u32>, ticks: seq<Tick>,
                 i: nat, log: seq<Event>, used: set<u32>)
    requires LoopInv(sock, members, log0, used0, ticks, i, false, log, used)
    ensures i < |ticks| && PollWellFormed(ticks[i].poll) && DrawsReachFree(used, ticks[i])
  {
    FairHead(used, ticks, i);
  }

  /** One iteration keeps the loop state. The values after the step are
      parameters tied to the old ones by `requires`, so that the loop body passes
      its own variables and its proof does not re-derive them from the terms. */
  lemma LoopAdvance(sock: int, members: seq<int>, log0: seq<Event>, used0: set<u32>, ticks: seq<Tick>,
                    i: nat, log: seq<Event>, used: set<u32>,
                    i': nat, done: bool, after: seq<Event>, used': set<u32>)
    requires LoopInv(sock, members, log0, used0, ticks, i, false, log, used)
    requires DrawsReachFree(used, ticks[i])
    requires i' == i + 1 && done == EndsSession(ticks[i])
    requires after == log + StepLog(sock, members, used, ticks[i]) && used' == used + {Issued(used, ticks[i])}
    ensures LoopInv(sock, members, log0, used0, ticks, i', done, after, used')
  {
    Advance(sock, members, used, ticks, i, log, after);
    if !EndsSession(ticks[i]) {
      assert i != |ticks| - 1;
    }
  }

  class MyServer {
    var clientSockets: seq<int>   // client_sockets
    var sessions: seq<int>        // client_threads: the handle each spawned (detached) session serves
    var running: bool
    var usedIds: set<u32>         // used_ids
    var log: seq<Event>

    constructor ()
      ensures running && clientSockets == [] && sessions == [] && usedIds == {} && log == []
    {
      clientSockets, sessions, running, usedIds, log := [], [], true, {}, [];
    }

    /** `generateUniqueId`: draw `(base << 16) | (rand() & 0xFFFF)` until the
        token is not in `used_ids`, then record it. `draws` are the values the
        successive `rand()` calls return; one of them must give a free token.
        A free token exists whenever fewer than 65536 issued tokens share the
        high half `base` gives (Tokens.FreeLowExists). */
    method GenerateUniqueId(base: u32, draws: seq<nat>) returns (id: u32)
      requires exists k :: 0 <= k < |draws| && Candidate(base, draws[k]) !in usedIds
      modifies this`usedIds
      ensures id == Candidate(base, draws[FirstFree(base, draws, old(usedIds))])
      ensures id !in old(usedIds)
      ensures usedIds == old(usedIds) + {id} && |usedIds| == |old(usedIds)| + 1
      ensures ShiftRight(id, 16) == base % TWO_16
      ensures exists k :: 0 <= k < |draws| && id % TWO_16 == draws[k] % TWO_16
    {
      ghost var free :| 0 <= free < |draws| && Candidate(base, draws[free]) !in usedIds;
      var i := 0;
      id := Candidate(base, draws[i]);
      while id in usedIds
        invariant 0 <= i <= free && id == Candidate(base, draws[i])
        invariant forall j :: 0 <= j < i ==> Candidate(base, draws[j]) in usedIds
        decreases free - i
      {
        i := i + 1;
        id := Candidate(base, draws[i]);
      }
      CandidateBits(base, draws[i]);
      usedIds := usedIds + {id};
    }

    /** `broadcast`: one send of `msg` to every registered socket, in order. */
    method Broadcast(msg: string)
      modifies this`log
      ensures log == old(log) + SendAll(clientSockets, msg)
    {
      for i := 0 to |clientSockets|
        invariant log == old(log) + SendAll(clientSockets[..i], msg)
      {
        assert clientSockets[..i + 1][..i] == clientSockets[..i];
        log := log + [Send(clientSockets[i], msg)];
      }
      assert clientSockets[..|clientSockets|] == clientSockets;
    }

    /** The newline scan of `handleClient` over `buffer[0..valread)`. */
    method ScanBuffer(buffer: seq<byte>, valread: nat)
      requires valread <= |buffer|
      modifies this`log
      ensures log == old(log) + NewlineBroadcasts(buffer[..valread], clientSockets)
    {
      for i := 0 to valread
        invariant log == old(log) + NewlineBroadcasts(buffer[..i], clientSockets)
      {
        assert buffer[..i + 1][..i] == buffer[..i];
        if buffer[i] == NEWLINE {
          Broadcast(Line(|clientSockets|));
        }
      }
    }

    /** One iteration of the session loop: issue and send a token (ignoring the
        result of the send), then handle the poll. Returns whether the loop is left. */
    method SessionStep(sock: int, t: Tick) returns (exit: bool)
      requires PollWellFormed(t.poll) && DrawsReachFree(usedIds, t)
      modifies this`usedIds, this`log
      ensures exit == EndsSession(t)
      ensures usedIds == old(usedIds) + {Issued(old(usedIds), t)}
      ensures log == old(log) + StepLog(sock, clientSockets, old(usedIds), t)
    {
      var id := GenerateUniqueId(t.seconds, t.draws);
      log := log + [Send(sock, Line(id))];
      match t.poll
      case Idle =>
        exit := false;
      case Readable(valread, buffer) =>
        if valread <= 0 {
          return true;
        }
        assert Received(t.poll) == buffer[..valread];
        ScanBuffer(buffer, valread);
        exit := false;
    }

    /** The `while (running)` loop of `handleClient` with `sock` registered: the
        session's iterations while `running` holds, up to the tick that ends it. */
    method SessionLoop(sock: int, ticks: seq<Tick>)
      requires TicksWellFormed(ticks) && SessionFair(usedIds, ticks)
      requires |ticks| > 0 && EndsSession(ticks[|ticks| - 1])
      modifies this`usedIds, this`log
      ensures running ==>
                log == old(log) + SessionLog(sock, clientSockets, old(usedIds), ticks)
                && usedIds == SessionUsed(old(usedIds), ticks)
      ensures !running ==> log == old(log) && usedIds == old(usedIds)
    {
      var i, done := 0, false;
      LoopStart(sock, clientSockets, log, usedIds, ticks);
      // Nothing in a session clears `running`, so the `while (running)` test
      // gives the same answer on every iteration.
      if !running {
        return;
      }
      while !done
        invariant LoopInv(sock, clientSockets, old(log), old(usedIds), ticks, i, done, log, usedIds)
        decreases |ticks| - i
      {
        ghost var before, prev := log, usedIds;
        LoopHead(sock, clientSockets, old(log), old(usedIds), ticks, i, log, usedIds);
        done := SessionStep(sock, ticks[i]);
        ghost var k := i;
        i := i + 1;
        LoopAdvance(sock, clientSockets, old(log), old(usedIds), ticks, k, before, prev, i, done, log, usedIds);
      }
    }

    /** The `push_back` critical section at the start of `handleClient`. */
    method Register(sock: int)
      modifies this`clientSockets
      ensures clientSockets == old(clientSockets) + [sock]
    {
      clientSockets := clientSockets + [sock];
    }

    /** The erase-remove critical section at the end of `handleClient`. */
    method Unregister(sock: int)
      modifies this`clientSockets
      ensures clientSockets == RemoveAll(old(clientSockets), sock)
    {
      clientSockets := RemoveAll(clientSockets, sock);
    }

    /** `handleClient`, driven by the ticks of a peer that eventually goes away
        (the last tick ends the session): register, loop, then erase-remove the
        socket and close it. The registry ends as it was, less every copy of
        `sock`. */
    method HandleClient(sock: int, ticks: seq<Tick>)
      requires TicksWellFormed(ticks) && SessionFair(usedIds, ticks)
      requires |ticks| > 0 && EndsSession(ticks[|ticks| - 1])
      modifies this`clientSockets, this`usedIds, this`log
      ensures clientSockets == RemoveAll(old(clientSockets), sock)
      ensures old(running) ==>
                log == old(log) + SessionLog(sock, old(clientSockets) + [sock], old(usedIds), ticks) + [Close(sock)]
                && usedIds == SessionUsed(old(usedIds), ticks)
      ensures !old(running) ==> log == old(log) + [Close(sock)] && usedIds == old(usedIds)
    {
      Register(sock);
      SessionLoop(sock, ticks);
      Unregister(sock);
      log := log + [Close(sock)];
      RegisterThenRemove(old(clientSockets), sock);
    }

    /** The admission branch of `run`, as in newServer.cpp: a handle is given a
        (detached) session only while fewer than MAX_CLIENTS are registered;
        otherwise it gets "server full\n" and is closed without registering. */
    method AcceptStep(incoming: Incoming) returns (spawned: bool)
      modifies this`sessions, this`log
      ensures spawned <==> incoming.Accepted? && incoming.clientSocket >= 0 && |clientSockets| < MAX_CLIENTS
      ensures spawned ==> sessions == old(sessions) + [incoming.clientSocket] && log == old(log)
      ensures !spawned ==> sessions == old(sessions)
      ensures !spawned && incoming.Accepted? && incoming.clientSocket >= 0 ==>
                log == old(log) + [Send(incoming.clientSocket, SERVER_FULL), Close(incoming.clientSocket)]
                && |SERVER_FULL| == 12
      ensures !(incoming.Accepted? && incoming.clientSocket >= 0) ==> log == old(log)
    {
      spawned := false;
      if incoming.Accepted? && incoming.clientSocket >= 0 {
        var clientSocket := incoming.clientSocket;
        if |clientSockets| < MAX_CLIENTS {
          sessions := sessions + [clientSocket];
          spawned := true;
        } else {
          log := log + [Send(clientSocket, SERVER_FULL), Close(clientSocket)];
        }
      }
    }

    /** `shutdown`: stop the loops, say goodbye to every member, then, under the
        registry lock, close every member, empty the registry and close the
        listening socket. */
    method Shutdown()
      modifies this`running, this`log, this`clientSockets
      ensures !running && clientSockets == []
      ensures log == old(log) + SendAll(old(clientSockets), THANK_YOU) + CloseAll(old(clientSockets)) + [CloseListener]
    {
      running := false;
      Broadcast(THANK_YOU);
      ghost var farewell := log;
      for i := 0 to |clientSockets|
        invariant !running && clientSockets == old(clientSockets)
        invariant log == farewell + CloseAll(clientSockets[..i])
      {
        assert clientSockets[..i + 1][..i] == clientSockets[..i];
        log := log + [Close(clientSockets[i])];
      }
      assert clientSockets[..|clientSockets|] == clientSockets;
      clientSockets := [];
      log := log + [CloseListener];
    }
  }
}
