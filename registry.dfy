/** The client registry `std::vector<int> client_sockets` and what the server does
    with it: broadcast to every member in vector order, close every member,
    erase-remove one handle, and scan a received buffer for newlines. These are
    the specification functions the server classes are proved against. */
module Registry {
  import opened Wire

  /** The log a loop `for (int socket : members) send(socket, msg)` produces:
      exactly one send of `msg` to each member, in vector order. */
  function SendAll(members: seq<int>, msg: string): (r: seq<Event>)
    ensures |r| == |members|
    ensures forall k :: 0 <= k < |members| ==> r[k] == Send(members[k], msg)
  {
    if members == [] then []
    else SendAll(members[..|members| - 1], msg) + [Send(members[|members| - 1], msg)]
  }

  /** Every entry of a broadcast log is a send of the message to a member. */
  lemma SendAllMembers(members: seq<int>, msg: string)
    ensures forall e :: e in SendAll(members, msg) ==> e.Send? && e.socket in members && e.data == msg
  {
    var r := SendAll(members, msg);
    forall e | e in r
      ensures e.Send? && e.socket in members && e.data == msg
    {
      var k :| 0 <= k < |r| && r[k] == e;
      assert e == Send(members[k], msg);
    }
  }

  /** The log a loop `for (int socket : members) close(socket)` produces. */
  function CloseAll(members: seq<int>): (r: seq<Event>)
    ensures |r| == |members|
    ensures forall k :: 0 <= k < |members| ==> r[k] == Close(members[k])
  {
    if members == [] then []
    else CloseAll(members[..|members| - 1]) + [Close(members[|members| - 1])]
  }

  /** `v.erase(std::remove(v.begin(), v.end(), x), v.end())`. */
  function RemoveAll(s: seq<int>, x: int): (r: seq<int>)
    ensures |r| <= |s|
  {
    if s == [] then []
    else (if s[0] == x then [] else [s[0]]) + RemoveAll(s[1..], x)
  }

  /** Erase-remove takes out every occurrence of `x` and keeps every other
      element as often as it was there. */
  lemma {:induction false} RemoveAllRemoves(s: seq<int>, x: int)
    ensures x !in RemoveAll(s, x)
    ensures multiset(RemoveAll(s, x)) == multiset(s)[x := 0]
    ensures |RemoveAll(s, x)| == |s| - multiset(s)[x]
  {
    if s != [] {
      RemoveAllRemoves(s[1..], x);
      assert s == [s[0]] + s[1..];
      assert multiset(s) == multiset([s[0]]) + multiset(s[1..]);
    }
  }

  /** Erase-remove works piecewise, so the elements it keeps stay in their
      relative order. */
  lemma {:induction false} RemoveAllAppend(a: seq<int>, b: seq<int>, x: int)
    ensures RemoveAll(a + b, x) == RemoveAll(a, x) + RemoveAll(b, x)
  {
    if a == [] {
      assert a + b == b;
    } else {
      var ab := a + b;
      var head := if a[0] == x then [] else [a[0]];
      assert ab[0] == a[0] && ab[1..] == a[1..] + b;
      assert RemoveAll(ab, x) == head + RemoveAll(a[1..] + b, x);
      RemoveAllAppend(a[1..], b, x);
      assert RemoveAll(a, x) == head + RemoveAll(a[1..], x);
      AppendAssoc(head, RemoveAll(a[1..], x), RemoveAll(b, x));
    }
  }

  lemma AppendAssoc<T>(a: seq<T>, b: seq<T>, c: seq<T>)
    ensures a + (b + c) == (a + b) + c
  {
  }

  /** Removing a handle that is not registered changes nothing. */
  lemma {:induction false} RemoveAllAbsent(s: seq<int>, x: int)
    requires x !in s
    ensures RemoveAll(s, x) == s
  {
    if s != [] {
      assert s[0] != x && x !in s[1..];
      RemoveAllAbsent(s[1..], x);
    }
  }

  /** A session that registers with `push_back` and later erase-removes its own
      handle leaves the others exactly as they were, minus any stale copy of it. */
  lemma RegisterThenRemove(s: seq<int>, x: int)
    ensures RemoveAll(s + [x], x) == RemoveAll(s, x)
  {
    RemoveAllAppend(s, [x], x);
    assert RemoveAll([x], x) == [] + RemoveAll([], x);
  }

  /** The number of `'\n'` bytes in a buffer. */
  function NewlineCount(buf: seq<byte>): (r: nat)
    ensures r == multiset(buf)[NEWLINE]
    ensures r <= |buf|
  {
    if buf == [] then 0
    else
      assert buf == buf[..|buf| - 1] + [buf[|buf| - 1]];
      NewlineCount(buf[..|buf| - 1]) + (if buf[|buf| - 1] == NEWLINE then 1 else 0)
  }

  /** The log a byte loop `for (i = 0; i < n; i++) if (buf[i] == '\n')
      broadcast(to_string(members.size()) + "\n")` produces over `buf[..n]`. */
  function NewlineBroadcasts(buf: seq<byte>, members: seq<int>): seq<Event>
  {
    if buf == [] then []
    else
      NewlineBroadcasts(buf[..|buf| - 1], members)
      + (if buf[|buf| - 1] == NEWLINE then SendAll(members, Line(|members|)) else [])
  }

  /** `n` copies of `xs`, one after the other. */
  function Repeat<T>(xs: seq<T>, n: nat): (r: seq<T>)
    ensures |r| == n * |xs|
  {
    if n == 0 then [] else Repeat(xs, n - 1) + xs
  }

  /** A received buffer triggers one full count broadcast per newline byte, and
      nothing else. */
  lemma {:induction false} NewlineBroadcastsAreCountBroadcasts(buf: seq<byte>, members: seq<int>)
    ensures NewlineBroadcasts(buf, members)
         == Repeat(SendAll(members, Line(|members|)), NewlineCount(buf))
    ensures |NewlineBroadcasts(buf, members)| == NewlineCount(buf) * |members|
  {
    if buf != [] {
      NewlineBroadcastsAreCountBroadcasts(buf[..|buf| - 1], members);
    }
  }

  /** Where each member's farewell and close sit in the shutdown log. */
  lemma ShutdownLogAt(members: seq<int>, msg: string, k: int)
    requires 0 <= k < |members|
    ensures (SendAll(members, msg) + CloseAll(members))[k] == Send(members[k], msg)
    ensures (SendAll(members, msg) + CloseAll(members))[|members| + k] == Close(members[k])
  {
  }

  /** In the shutdown log every member receives the farewell and is closed. */
  lemma ShutdownReachesAll(members: seq<int>, msg: string)
    ensures var log := SendAll(members, msg) + CloseAll(members);
            forall k :: 0 <= k < |members| ==> Send(members[k], msg) in log && Close(members[k]) in log
  {
    var log := SendAll(members, msg) + CloseAll(members);
    forall k | 0 <= k < |members|
      ensures Send(members[k], msg) in log && Close(members[k]) in log
    {
      ShutdownLogAt(members, msg, k);
      assert log[k] == Send(members[k], msg);
      assert log[|members| + k] == Close(members[k]);
    }
  }

  /** In the shutdown log every close comes after the farewell to that socket. */
  lemma FarewellBeforeClose(members: seq<int>, msg: string)
    ensures var log := SendAll(members, msg) + CloseAll(members);
            forall j :: 0 <= j < |log| && log[j].Close? ==>
              exists i :: 0 <= i < j && log[i] == Send(log[j].socket, msg)
  {
    var log := SendAll(members, msg) + CloseAll(members);
    var n := |members|;
    forall j | 0 <= j < |log| && log[j].Close?
      ensures exists i :: 0 <= i < j && log[i] == Send(log[j].socket, msg)
    {
      assert j >= n;
      var k := j - n;
      ShutdownLogAt(members, msg, k);
      assert log[n + k] == Close(members[k]);
      assert log[k] == Send(members[k], msg);
    }
  }
}
