/** The session registry (SessionManager): the set of live sessions, and
    the start()/stop() calls it issues to sessions, in order. The mutex
    makes each operation atomic, so the registry is modelled as a
    sequential state machine; a session is named by an identifier standing
    for its shared pointer.

    A session's stop() closes its socket and throws when the shutdown or the
    close fails. Whether that happens is an outcome of I/O, so the sessions
    whose stop() throws are a parameter `failing` of the operations that
    call it. */
module Sessions {

  type SessionId = nat

  /** A call the registry makes on a session. */
  datatype Call = StartCall(session: SessionId) | StopCall(session: SessionId)

  /** How an operation that calls stop() ended: normally, or with the error
      that the given session's stop() threw. */
  datatype Outcome = Done | Threw(session: SessionId)

  /** The live set, the next identifier make_session hands out (a fresh
      allocation), and every call made on a session so far. */
  datatype Registry = Registry(live: set<SessionId>, next: SessionId, calls: seq<Call>)

  /** SessionManager(): nothing registered, nothing called. */
  function Init(): (r: Registry)
    ensures r.live == {} && r.calls == []
  {
    Registry({}, 0, [])
  }

  /** How often `c` occurs in `calls`. */
  function Count(calls: seq<Call>, c: Call): nat {
    if |calls| == 0 then 0
    else Count(calls[..|calls| - 1], c) + (if calls[|calls| - 1] == c then 1 else 0)
  }

  lemma {:induction false} CountAppend(a: seq<Call>, b: seq<Call>, c: Call)
    ensures Count(a + b, c) == Count(a, c) + Count(b, c)
    decreases |b|
  {
    if |b| == 0 {
      assert a + b == a;
    } else {
      assert (a + b)[..|a + b| - 1] == a + b[..|b| - 1];
      assert (a + b)[|a + b| - 1] == b[|b| - 1];
      CountAppend(a, b[..|b| - 1], c);
    }
  }

  /** Every stop() in `calls` comes after a start() of the same session. */
  ghost predicate StartedFirst(calls: seq<Call>) {
    forall i :: 0 <= i < |calls| && calls[i].StopCall? ==> StartCall(calls[i].session) in calls[..i]
  }

  lemma StartedFirstSnoc(calls: seq<Call>, c: Call)
    requires StartedFirst(calls)
    requires c.StopCall? ==> StartCall(c.session) in calls
    ensures StartedFirst(calls + [c])
  {
    var calls' := calls + [c];
    forall i | 0 <= i < |calls'| && calls'[i].StopCall?
      ensures StartCall(calls'[i].session) in calls'[..i]
    {
      if i < |calls| {
        assert calls'[..i] == calls[..i];
      } else {
        assert calls'[..i] == calls;
      }
    }
  }

  /** The registry's invariant, whatever its sessions' stop() does:
      identifiers in use were all handed out already, every live session
      has been started, and no session is stopped before it is started. */
  ghost predicate Valid(r: Registry) {
    && (forall s :: s in r.live ==> s < r.next)
    && (forall i :: 0 <= i < |r.calls| ==> r.calls[i].session < r.next)
    && (forall s :: s in r.live ==> StartCall(s) in r.calls)
    && StartedFirst(r.calls)
  }

  /** The stronger invariant of a registry on which no stop_all has thrown:
      every session has been stopped through the registry at most as often
      as it was started, one time fewer while it is live. */
  ghost predicate Balanced(r: Registry) {
    forall s :: Count(r.calls, StopCall(s)) + (if s in r.live then 1 else 0) <= Count(r.calls, StartCall(s))
  }

  lemma InitValid()
    ensures Valid(Init()) && Balanced(Init())
  {
  }

  /** make_session: a new session, not registered; the registry itself is
      left as it was apart from the allocation. */
  function MakeSession(r: Registry): (p: (SessionId, Registry))
    ensures p.1.live == r.live && p.1.calls == r.calls
    ensures Valid(r) ==> Valid(p.1) && p.0 !in r.live
    ensures Valid(r) ==> forall i :: 0 <= i < |r.calls| ==> r.calls[i].session != p.0
    ensures Balanced(r) ==> Balanced(p.1)
  {
    (r.next, Registry(r.live, r.next + 1, r.calls))
  }

  /** A session that was never handed to the registry has had no calls. */
  lemma {:induction false} NoCallsBelow(calls: seq<Call>, s: SessionId, c: Call)
    requires forall i :: 0 <= i < |calls| ==> calls[i].session != s
    requires c.session == s
    ensures Count(calls, c) == 0
    decreases |calls|
  {
    if |calls| > 0 {
      NoCallsBelow(calls[..|calls| - 1], s, c);
    }
  }

  /** A session fresh from make_session has never been started or stopped. */
  lemma MadeSessionHasNoHistory(r: Registry)
    requires Valid(r)
    ensures Count(r.calls, StartCall(MakeSession(r).0)) == 0
    ensures Count(r.calls, StopCall(MakeSession(r).0)) == 0
  {
    var s := MakeSession(r).0;
    NoCallsBelow(r.calls, s, StartCall(s));
    NoCallsBelow(r.calls, s, StopCall(s));
  }

  /** start: register the session (a second registration changes nothing)
      and start it. Starting only initiates an asynchronous read, which
      reports its failure later, through stop(). */
  function Start(r: Registry, s: SessionId): (r': Registry)
    ensures r'.live == r.live + {s} && s in r'.live && r'.next == r.next
    ensures r'.calls == r.calls + [StartCall(s)]
    ensures Valid(r) && s < r.next ==> Valid(r')
    ensures Balanced(r) ==> Balanced(r')
  {
    var r' := Registry(r.live + {s}, r.next, r.calls + [StartCall(s)]);
    assert Valid(r) ==> StartedFirst(r'.calls) by {
      if Valid(r) {
        StartedFirstSnoc(r.calls, StartCall(s));
      }
    }
    assert forall t :: Count(r'.calls, StopCall(t)) == Count(r.calls, StopCall(t)) by {
      forall t ensures Count(r'.calls, StopCall(t)) == Count(r.calls, StopCall(t)) {
        assert r'.calls[..|r'.calls| - 1] == r.calls;
      }
    }
    assert forall t :: Count(r'.calls, StartCall(t)) == Count(r.calls, StartCall(t)) + (if t == s then 1 else 0) by {
      forall t ensures Count(r'.calls, StartCall(t)) == Count(r.calls, StartCall(t)) + (if t == s then 1 else 0) {
        assert r'.calls[..|r'.calls| - 1] == r.calls;
      }
    }
    r'
  }

  /** stop: unregister the session, and stop it only if it was registered.
      The session is unregistered before its stop() runs, so a stop() that
      throws leaves it unregistered too; the error reaches the caller. */
  function Stop(r: Registry, s: SessionId, failing: set<SessionId>): (p: (Registry, Outcome))
    ensures p.0.live == r.live - {s} && s !in p.0.live && p.0.next == r.next
    ensures s in r.live ==> p.0.calls == r.calls + [StopCall(s)]
    ensures s !in r.live ==> p.0 == r
    ensures p.1.Threw? <==> s in r.live && s in failing
    ensures p.1.Threw? ==> p.1.session == s
    ensures Valid(r) ==> Valid(p.0)
    ensures Balanced(r) ==> Balanced(p.0)
  {
    if s !in r.live then (r, Done)
    else
      var r' := Registry(r.live - {s}, r.next, r.calls + [StopCall(s)]);
      assert Valid(r) ==> StartedFirst(r'.calls) by {
        if Valid(r) {
          StartedFirstSnoc(r.calls, StopCall(s));
        }
      }
      assert forall t :: Count(r'.calls, StartCall(t)) == Count(r.calls, StartCall(t)) by {
        forall t ensures Count(r'.calls, StartCall(t)) == Count(r.calls, StartCall(t)) {
          assert r'.calls[..|r'.calls| - 1] == r.calls;
        }
      }
      assert forall t :: Count(r'.calls, StopCall(t)) == Count(r.calls, StopCall(t)) + (if t == s then 1 else 0) by {
        forall t ensures Count(r'.calls, StopCall(t)) == Count(r.calls, StopCall(t)) + (if t == s then 1 else 0) {
          assert r'.calls[..|r'.calls| - 1] == r.calls;
        }
      }
      (r', if s in failing then Threw(s) else Done)
  }

  /** Stopping twice is stopping once: the second stop finds nothing to do. */
  lemma StopIdempotent(r: Registry, s: SessionId, failing: set<SessionId>)
    ensures Stop(Stop(r, s, failing).0, s, failing) == (Stop(r, s, failing).0, Done)
  {
  }

  /** While no stop_all has thrown, a stop() through the registry is always
      preceded by a start() that no other stop() answered. */
  lemma StoppedAtMostOncePerStart(r: Registry, s: SessionId)
    requires Balanced(r)
    ensures Count(r.calls, StopCall(s)) <= Count(r.calls, StartCall(s))
    ensures s in r.live ==> Count(r.calls, StopCall(s)) < Count(r.calls, StartCall(s))
  {
  }

  /** No session occurs twice in `order`. */
  predicate Distinct(order: seq<SessionId>) {
    forall i, j :: 0 <= i < j < |order| ==> order[i] != order[j]
  }

  /** `order` walks the set `live`: each live session once, nothing else. */
  predicate IsWalkOf(order: seq<SessionId>, live: set<SessionId>) {
    && Distinct(order)
    && (forall s :: s in live ==> s in order)
    && (forall i :: 0 <= i < |order| ==> order[i] in live)
  }

  /** The stop() calls made on the sessions of `order`, in order. */
  function StopCalls(order: seq<SessionId>): (calls: seq<Call>)
    ensures |calls| == |order|
    ensures forall i :: 0 <= i < |order| ==> calls[i] == StopCall(order[i])
  {
    if |order| == 0 then []
    else StopCalls(order[..|order| - 1]) + [StopCall(order[|order| - 1])]
  }

  /** Stopping distinct sessions stops each of them once and starts none. */
  lemma {:induction false} CountStopCalls(order: seq<SessionId>, s: SessionId)
    requires Distinct(order)
    ensures Count(StopCalls(order), StopCall(s)) == (if s in order then 1 else 0)
    ensures Count(StopCalls(order), StartCall(s)) == 0
    decreases |order|
  {
    if |order| > 0 {
      var front := order[..|order| - 1];
      assert StopCalls(order)[..|order| - 1] == StopCalls(front);
      CountStopCalls(front, s);
      assert s in order <==> s in front || s == order[|order| - 1];
      if s == order[|order| - 1] {
        assert s !in front;
      }
    }
  }

  /** stop_all: walk the registered sessions in the set's order, calling
      stop() on each, then clear the set. A stop() that throws ends the walk
      at once: the sessions after it are not stopped and the set is not
      cleared, so the sessions already stopped stay registered. */
  method StopAll(r: Registry, order: seq<SessionId>, failing: set<SessionId>) returns (r': Registry, out: Outcome)
    requires IsWalkOf(order, r.live)
    ensures StopAllEnds(r, order, failing, r', out)
  {
    var added;
    added, out := StopEach(order, failing);
    if out.Threw? {
      r' := Registry(r.live, r.next, r.calls + added);
      StopAllThrew(r, order, failing, added, out, r');
    } else {
      r' := Registry({}, r.next, r.calls + added);
      StopAllDone(r, order, failing, added, out, r');
    }
  }

  /** How stop_all, walking the live set of `r` in `order` while the
      sessions in `failing` throw from stop(), leaves the registry `r'` with
      the outcome `out`. It throws exactly when some live session fails. If
      none does, every live session gets one stop() and the set is emptied.
      If one does, the walk ends at the first failing session in `order`:
      it and the sessions before it get one stop() each, and the set is
      left as it was. Either way no session gets two stop() calls, nothing
      but stop() is called, and validity is kept; balance is kept when
      nothing threw. */
  ghost predicate StopAllEnds(r: Registry, order: seq<SessionId>, failing: set<SessionId>, r': Registry, out: Outcome) {
    && r'.next == r.next
    && (out.Done? <==> r.live * failing == {})
    && (out.Done? ==> r'.live == {} && r'.calls == r.calls + StopCalls(order) && StopsEach(r, r'))
    && (out.Threw? ==> var k := |r'.calls| - |r.calls| - 1;
      && 0 <= k < |order| && out.session == order[k] && order[k] in failing
      && (forall j :: 0 <= j < k ==> order[j] !in failing)
      && r'.live == r.live && r'.calls == r.calls + StopCalls(order[..k + 1]))
    && (out.Threw? ==> out.session in r.live && out.session in failing)
    && StopsOnly(r, r')
    && (Valid(r) ==> Valid(r'))
    && (Balanced(r) && out.Done? ==> Balanced(r'))
  }

  /** `r'` extends the calls of `r` with stop() calls only, each on a
      session live in `r`, and at most one per session. */
  ghost predicate StopsOnly(r: Registry, r': Registry) {
    && |r.calls| <= |r'.calls| && r'.calls[..|r.calls|] == r.calls
    && (forall i :: |r.calls| <= i < |r'.calls| ==> r'.calls[i].StopCall? && r'.calls[i].session in r.live)
    && (forall s :: Count(r'.calls[|r.calls|..], StopCall(s)) <= 1)
  }

  /** The calls `r'` adds to `r` stop every session live in `r` exactly
      once, and no other session. */
  ghost predicate StopsEach(r: Registry, r': Registry) {
    && |r.calls| <= |r'.calls|
    && forall s :: Count(r'.calls[|r.calls|..], StopCall(s)) == (if s in r.live then 1 else 0)
  }

  /** The loop of stop_all: call stop() on the sessions of `order` in turn,
      until one of them throws. */
  method StopEach(order: seq<SessionId>, failing: set<SessionId>) returns (added: seq<Call>, out: Outcome)
    ensures out.Done? ==> added == StopCalls(order) && forall j :: 0 <= j < |order| ==> order[j] !in failing
    ensures out.Threw? ==> var k := |added| - 1;
      && 0 <= k < |order| && out.session == order[k] && order[k] in failing
      && (forall j :: 0 <= j < k ==> order[j] !in failing)
      && added == StopCalls(order[..k + 1])
  {
    var i := 0;
    added := [];
    while i < |order|
      invariant 0 <= i <= |order|
      invariant added == StopCalls(order[..i])
      invariant forall j :: 0 <= j < i ==> order[j] !in failing
    {
      StopCallsSnoc(order, i);
      added := added + [StopCall(order[i])];
      if order[i] in failing {
        return added, Threw(order[i]);
      }
      i := i + 1;
    }
    assert order[..i] == order;
    return added, Done;
  }

  lemma StopCallsSnoc(order: seq<SessionId>, i: nat)
    requires i < |order|
    ensures StopCalls(order[..i + 1]) == StopCalls(order[..i]) + [StopCall(order[i])]
  {
    assert order[..i + 1][..i] == order[..i];
  }

  /** stop_all's walk when a stop() throws: the sessions up to and
      including the failing one are stopped once each, and the set is left
      as it was. */
  lemma StopAllThrew(r: Registry, order: seq<SessionId>, failing: set<SessionId>, added: seq<Call>, out: Outcome, r': Registry)
    requires IsWalkOf(order, r.live)
    requires out.Threw? ==> var k := |added| - 1;
      && 0 <= k < |order| && out.session == order[k] && order[k] in failing
      && (forall j :: 0 <= j < k ==> order[j] !in failing)
      && added == StopCalls(order[..k + 1])
    requires out.Threw? && r' == Registry(r.live, r.next, r.calls + added)
    ensures StopAllEnds(r, order, failing, r', out)
  {
    var k := |added| - 1;
    PrefixOfWalk(order, r.live, k + 1);
    Stopped(r, order[..k + 1], r');
    assert order[k] in r.live * failing;
  }

  /** A prefix of a walk of a set walks part of the set. */
  lemma PrefixOfWalk(order: seq<SessionId>, live: set<SessionId>, n: nat)
    requires IsWalkOf(order, live) && n <= |order|
    ensures Distinct(order[..n]) && forall i :: 0 <= i < n ==> order[..n][i] in live
  {
  }

  /** stop_all's walk when no stop() throws: every live session is stopped
      once, and the set is cleared. */
  lemma StopAllDone(r: Registry, order: seq<SessionId>, failing: set<SessionId>, added: seq<Call>, out: Outcome, r': Registry)
    requires IsWalkOf(order, r.live)
    requires out.Done? ==> added == StopCalls(order) && forall j :: 0 <= j < |order| ==> order[j] !in failing
    requires out.Done? && r' == Registry({}, r.next, r.calls + added)
    ensures StopAllEnds(r, order, failing, r', out)
  {
    CompletedWalk(r, order, failing, added, r');
  }

  /** The facts behind StopAllDone, one at a time. */
  lemma CompletedWalk(r: Registry, order: seq<SessionId>, failing: set<SessionId>, added: seq<Call>, r': Registry)
    requires IsWalkOf(order, r.live) && forall j :: 0 <= j < |order| ==> order[j] !in failing
    requires added == StopCalls(order) && r' == Registry({}, r.next, r.calls + added)
    ensures r.live * failing == {}
    ensures StopsOnly(r, r') && StopsEach(r, r')
    ensures Valid(r) ==> Valid(r')
    ensures Balanced(r) ==> Balanced(r')
  {
    WalkMembers(order, r.live);
    assert forall s :: s in r.live ==> s !in failing;
    Stopped(r, order, r');
    if Balanced(r) {
      WalkKeepsBalanced(r, order, added);
    }
  }

  /** The sessions a walk visits are the sessions of the set it walks. */
  lemma WalkMembers(order: seq<SessionId>, live: set<SessionId>)
    requires IsWalkOf(order, live)
    ensures forall s :: s in order <==> s in live
  {
  }

  /** A completed walk stops each live session once, so clearing the set
      after it keeps the registry balanced. */
  lemma WalkKeepsBalanced(r: Registry, order: seq<SessionId>, added: seq<Call>)
    requires IsWalkOf(order, r.live) && added == StopCalls(order) && Balanced(r)
    ensures Balanced(Registry({}, r.next, r.calls + added))
  {
    WalkMembers(order, r.live);
    forall s ensures Count(added, StopCall(s)) == (if s in r.live then 1 else 0) {
      CountStopCalls(order, s);
    }
    StopsKeepBalanced(r, added);
  }

  /** What stopping the distinct live sessions `visited`, in order, does to
      the calls and to the invariant, whether or not the set is cleared. */
  lemma Stopped(r: Registry, visited: seq<SessionId>, r': Registry)
    requires Distinct(visited) && forall i :: 0 <= i < |visited| ==> visited[i] in r.live
    requires r'.next == r.next && r'.calls == r.calls + StopCalls(visited) && r'.live <= r.live
    ensures StopsOnly(r, r')
    ensures forall s :: Count(r'.calls[|r.calls|..], StopCall(s)) == (if s in visited then 1 else 0)
    ensures Valid(r) ==> Valid(r')
  {
    StoppedCalls(r, visited, r');
    if Valid(r) {
      StoppedValid(r, visited, r');
    }
  }

  lemma StoppedCalls(r: Registry, visited: seq<SessionId>, r': Registry)
    requires Distinct(visited) && forall i :: 0 <= i < |visited| ==> visited[i] in r.live
    requires r'.calls == r.calls + StopCalls(visited)
    ensures StopsOnly(r, r')
    ensures forall s :: Count(r'.calls[|r.calls|..], StopCall(s)) == (if s in visited then 1 else 0)
  {
    assert r'.calls[..|r.calls|] == r.calls;
    assert r'.calls[|r.calls|..] == StopCalls(visited);
    StopCallsOnce(visited, r.live);
    forall i | |r.calls| <= i < |r'.calls| ensures r'.calls[i].StopCall? && r'.calls[i].session in r.live {
      assert r'.calls[i] == StopCalls(visited)[i - |r.calls|];
    }
  }

  /** Stopping distinct sessions of a set: stop() calls only, on sessions of
      the set, one for each session visited. */
  lemma StopCallsOnce(visited: seq<SessionId>, live: set<SessionId>)
    requires Distinct(visited) && forall i :: 0 <= i < |visited| ==> visited[i] in live
    ensures forall s :: Count(StopCalls(visited), StopCall(s)) == (if s in visited then 1 else 0)
    ensures forall s :: Count(StopCalls(visited), StopCall(s)) <= 1
    ensures forall i :: 0 <= i < |visited| ==> StopCalls(visited)[i].StopCall? && StopCalls(visited)[i].session in live
  {
    forall s ensures Count(StopCalls(visited), StopCall(s)) == (if s in visited then 1 else 0) {
      CountStopCalls(visited, s);
    }
  }

  lemma StoppedValid(r: Registry, visited: seq<SessionId>, r': Registry)
    requires Valid(r) && forall i :: 0 <= i < |visited| ==> visited[i] in r.live
    requires r'.next == r.next && r'.calls == r.calls + StopCalls(visited) && r'.live <= r.live
    ensures Valid(r')
  {
    StopsStartedFirst(r.calls, visited, r.live);
    forall i | 0 <= i < |r'.calls| ensures r'.calls[i].session < r'.next {
      if i >= |r.calls| {
        assert r'.calls[i] == StopCall(visited[i - |r.calls|]);
      } else {
        assert r'.calls[i] == r.calls[i];
      }
    }
    forall s | s in r'.live ensures StartCall(s) in r'.calls {
      assert s in r.live;
      var i :| 0 <= i < |r.calls| && r.calls[i] == StartCall(s);
      assert r'.calls[i] == StartCall(s);
    }
  }

  /** Stopping sessions that were all started keeps every stop() after its
      start(). */
  lemma {:induction false} StopsStartedFirst(calls: seq<Call>, visited: seq<SessionId>, live: set<SessionId>)
    requires StartedFirst(calls)
    requires forall s :: s in live ==> StartCall(s) in calls
    requires forall i :: 0 <= i < |visited| ==> visited[i] in live
    ensures StartedFirst(calls + StopCalls(visited))
    decreases |visited|
  {
    if |visited| > 0 {
      var front := visited[..|visited| - 1];
      var s := visited[|visited| - 1];
      StopsStartedFirst(calls, front, live);
      var i :| 0 <= i < |calls| && calls[i] == StartCall(s);
      assert (calls + StopCalls(front))[i] == StartCall(s);
      StartedFirstSnoc(calls + StopCalls(front), StopCall(s));
      assert calls + StopCalls(visited) == calls + StopCalls(front) + [StopCall(s)];
    } else {
      assert calls + StopCalls(visited) == calls;
    }
  }

  /** Appending one stop() for each live session and emptying the live set
      keeps the registry balanced. */
  lemma StopsKeepBalanced(r: Registry, added: seq<Call>)
    requires Balanced(r)
    requires forall s :: Count(added, StopCall(s)) == (if s in r.live then 1 else 0)
    requires forall i :: 0 <= i < |added| ==> added[i].StopCall? && added[i].session in r.live
    ensures Balanced(Registry({}, r.next, r.calls + added))
  {
    var r' := Registry({}, r.next, r.calls + added);
    forall t ensures Count(r'.calls, StopCall(t)) == Count(r.calls, StopCall(t)) + Count(added, StopCall(t))
      && Count(r'.calls, StartCall(t)) == Count(r.calls, StartCall(t))
    {
      CountAppend(r.calls, added, StopCall(t));
      CountAppend(r.calls, added, StartCall(t));
      NoStarts(added, t);
    }
  }

  lemma {:induction false} NoStarts(calls: seq<Call>, s: SessionId)
    requires forall i :: 0 <= i < |calls| ==> calls[i].StopCall?
    ensures Count(calls, StartCall(s)) == 0
    decreases |calls|
  {
    if |calls| > 0 {
      NoStarts(calls[..|calls| - 1], s);
    }
  }

  lemma CountOne(c: Call, d: Call)
    ensures Count([c], d) == (if c == d then 1 else 0)
  {
    assert [c][..0] == [];
  }

  /** The path on which a session is stopped twice: stop_all stops session
      `a`, then the stop() of session `b` throws, so the set is not cleared.
      The server's signal handler only logs the error; `a`'s pending read
      then fails and its handler stops `a` through the registry again. The
      registry stays valid but is no longer balanced. */
  method StopAllThrowsThenReadFails() returns (r: Registry, a: SessionId)
    ensures Valid(r) && !Balanced(r)
    ensures Count(r.calls, StartCall(a)) == 1 && Count(r.calls, StopCall(a)) == 2
  {
    var r1, b, out := ThrowingStopAll();
    a := 0;
    var p := Stop(r1, a, {});
    assert Valid(p.0);
    r := p.0;
    DoubleStopCounts(a, b, r.calls);
  }

  /** stop_all on two started sessions, walking 0 before `b`, where the
      stop() of `b` throws: both are stopped, and both stay registered. */
  method ThrowingStopAll() returns (r: Registry, b: SessionId, out: Outcome)
    ensures Valid(r) && b != 0 && out == Threw(b)
    ensures r.live == {0, b} && r.calls == [StartCall(0), StartCall(b), StopCall(0), StopCall(b)]
  {
    var r0;
    r0, b := TwoStarted();
    var order := [0, b];
    assert IsWalkOf(order, r0.live);
    r, out := StopAll(r0, order, {b});
    assert out.Threw? by {
      assert b in r0.live * {b};
    }
    var k := |r.calls| - |r0.calls| - 1;
    assert k == 1 by {
      assert order[0] !in {b};
    }
    assert out == Threw(b);
    assert order[..k + 1] == order;
    assert StopCalls(order) == [StopCall(0), StopCall(b)];
  }

  /** A registry that has made two sessions, 0 and `b`, and started both. */
  method TwoStarted() returns (r: Registry, b: SessionId)
    ensures Valid(r) && b != 0
    ensures r.live == {0, b} && r.calls == [StartCall(0), StartCall(b)]
  {
    InitValid();
    var p := MakeSession(Init());
    var q := MakeSession(p.1);
    b := q.0;
    r := Start(Start(q.1, p.0), b);
  }

  /** The calls of that path: `a` is started once and stopped twice. */
  lemma DoubleStopCounts(a: SessionId, b: SessionId, calls: seq<Call>)
    requires a != b
    requires calls == [StartCall(a), StartCall(b), StopCall(a), StopCall(b), StopCall(a)]
    ensures Count(calls, StartCall(a)) == 1 && Count(calls, StopCall(a)) == 2
  {
    var c1 := [StartCall(a)];
    var c2 := c1 + [StartCall(b)];
    var c3 := c2 + [StopCall(a)];
    var c4 := c3 + [StopCall(b)];
    assert calls == c4 + [StopCall(a)];
    forall c | c == StartCall(a) || c == StopCall(a)
      ensures Count(calls, c) == (if c == StartCall(a) then 1 else 2)
    {
      CountOne(StartCall(a), c);
      CountSnoc(c1, StartCall(b), c);
      CountSnoc(c2, StopCall(a), c);
      CountSnoc(c3, StopCall(b), c);
      CountSnoc(c4, StopCall(a), c);
    }
  }

  lemma CountSnoc(calls: seq<Call>, x: Call, c: Call)
    ensures Count(calls + [x], c) == Count(calls, c) + (if x == c then 1 else 0)
  {
    assert (calls + [x])[..|calls|] == calls;
  }

}
