/** The connection pool of `ClientBase` in `client_http.hpp`: its methods may be called in any order, by any number of
    sessions, and every one of them keeps `Client.Valid`. */
module ConnectionPool {
  class Connection {
    var inUse: bool
    var attemptReconnect: bool

    constructor ()
      ensures !inUse && attemptReconnect
    {
      inUse, attemptReconnect := false, true;
    }
  }

  /** Up to its header a response is awaited; then its content is read, until the callback is called. */
  datatype Phase = AwaitingHeader | ReadingContent | Finished

  /** One request. `phase` is where its chain of handlers has got to, `reconnects` is history. */
  class Session {
    var connection: Connection
    ghost var phase: Phase
    ghost var reconnects: nat

    constructor (connection: Connection)
      ensures this.connection == connection && phase == AwaitingHeader && reconnects == 0
    {
      this.connection := connection;
      phase, reconnects := AwaitingHeader, 0;
    }

    ghost predicate Active()
      reads this
    {
      phase != Finished
    }
  }

  /** What the read of a header ends with. */
  datatype HeaderResult = TooLarge | Malformed | WholeResponse | MoreContent | ReadError(aborted: bool)

  lemma {:induction false} ImageSize(sessions: set<Session>)
    ensures |set s | s in sessions :: s.connection| <= |sessions|
  {
    if sessions != {} {
      var s :| s in sessions;
      var rest := sessions - {s};
      ImageSize(rest);
      assert (set t | t in sessions :: t.connection) == (set t | t in rest :: t.connection) + {s.connection};
    }
  }

  lemma {:induction false} SubsetSize(a: set<Connection>, b: set<Connection>)
    requires a <= b
    ensures |a| <= |b|
  {
    if a != {} {
      var c :| c in a;
      SubsetSize(a - {c}, b - {c});
    }
  }

  class Client {
    var connections: set<Connection>
    /** Every request made so far. */
    ghost var sessions: set<Session>

    /** The connection of an unfinished session is in use, and by no other session. */
    ghost predicate SessionsOwn()
      reads this, sessions, set s | s in sessions :: s.connection
    {
      && (forall s | s in sessions && s.Active() :: s.connection.inUse)
      && (forall s, t | s in sessions && t in sessions && s.Active() && t.Active()
            && s.connection == t.connection :: s == t)
    }

    /** A connection of the pool is in use only by an unfinished session. */
    ghost predicate UsedAreOwned()
      reads this, sessions, connections
    {
      forall c | c in connections && c.inUse :: exists s :: s in sessions && s.Active() && s.connection == c
    }

    ghost predicate OneIdle()
      reads this, connections
    {
      forall c, d | c in connections && d in connections && !c.inUse && !d.inUse :: c == d
    }

    ghost predicate ReconnectOnce()
      reads this, sessions, set s | s in sessions :: s.connection
    {
      forall s | s in sessions ::
        s.reconnects <= 1 && (s.phase == AwaitingHeader && s.reconnects == 1 ==> !s.connection.attemptReconnect)
    }

    ghost predicate Valid()
      reads this, sessions, connections, set s | s in sessions :: s.connection
    {
      SessionsOwn() && UsedAreOwned() && OneIdle() && ReconnectOnce()
    }

    constructor ()
      ensures Valid() && connections == {} && sessions == {}
    {
      connections, sessions := {}, {};
    }

    /** An idle connection of the pool if there is one, else a new one. */
    method GetConnection() returns (connection: Connection)
      modifies this`connections, connections
      ensures connections == old(connections) + {connection}
      ensures if connection in old(connections) then !old(connection.inUse)
              else fresh(connection) && forall c | c in old(connections) :: old(c.inUse)
      ensures connection.inUse && connection.attemptReconnect
      ensures forall c | c in old(connections) && c != connection :: unchanged(c)
    {
      if c :| c in connections && !c.inUse {
        connection := c;
      } else {
        connection := new Connection();
        connections := connections + {connection};
      }
      connection.attemptReconnect := true;
      connection.inUse := true;
    }

    method Request() returns (session: Session)
      requires Valid()
      modifies this, connections
      ensures Valid()
      ensures fresh(session) && sessions == old(sessions) + {session} && session.phase == AwaitingHeader
      ensures connections == old(connections) + {session.connection}
      ensures session.connection.inUse && session.connection.attemptReconnect
      ensures forall c | c in old(connections) && c != session.connection :: unchanged(c)
    {
      var connection := GetConnection();
      session := new Session(connection);
      sessions := sessions + {session};
      forall c | c in connections && c.inUse ensures exists s :: s in sessions && s.Active() && s.connection == c {
        if c == connection {
          assert session.connection == c;
        } else {
          var s :| s in old(sessions) && old(s.Active()) && old(s.connection) == c;
        }
      }
    }

    /** What remains of a pool: every connection in use, at most one idle one and one whenever there was one, without
        the connection that failed. */
    static ghost predicate Swept(before: set<Connection>, after: set<Connection>, failed: set<Connection>)
      reads before, after
    {
      && after <= before - failed
      && (forall c | c in before - failed && c.inUse :: c in after)
      && (forall c, d | c in after && d in after && !c.inUse && !d.inUse :: c == d)
      && ((exists c :: c in before - failed && !c.inUse) ==> exists c :: c in after && !c.inUse)
    }

    /** The sweep of a pool with `rest` still ahead and `unused` idle connections counted. */
    static ghost predicate Sweeping(before: set<Connection>, used: set<Connection>, failed: set<Connection>,
                                    pool: set<Connection>, rest: set<Connection>, unused: nat) {
      && rest <= pool <= before
      && (forall c | c in before && c in used && c !in failed :: c in pool)
      && (forall c | c in pool && c in failed :: c in rest)
      && (forall c, d | c in pool && d in pool && c !in rest && d !in rest && c !in used && d !in used :: c == d)
      && (unused == 0 ==> forall c | c in before && c !in used && c !in failed :: c in rest)
      && (unused > 0 ==> exists c :: c in pool && c !in rest && c !in used)
    }

    /** The next connection is dropped if it failed or an idle one was kept before. */
    static lemma SweepNext(before: set<Connection>, used: set<Connection>, failed: set<Connection>,
                           pool: set<Connection>, rest: set<Connection>, unused: nat, it: Connection)
      requires Sweeping(before, used, failed, pool, rest, unused) && it in rest
      ensures var idle := it !in failed && it !in used;
              Sweeping(before, used, failed, if it in failed || (idle && unused > 0) then pool - {it} else pool,
                rest - {it}, if idle then unused + 1 else unused)
    {
      if unused > 0 {
        var c :| c in pool && c !in rest && c !in used;
        assert c != it && c in pool - {it} && c !in rest - {it};
      }
    }

    static lemma SweptWhenDone(before: set<Connection>, used: set<Connection>, failed: set<Connection>,
                               pool: set<Connection>, unused: nat)
      requires Sweeping(before, used, failed, pool, {}, unused)
      requires used == set c | c in before && c.inUse
      ensures Swept(before, pool, failed)
    {
    }

    /** The loop of the callback, in whatever order the unordered set is traversed. */
    method Sweep(connection: Connection, ec: bool)
      modifies this`connections
      ensures Swept(old(connections), connections, if ec then {connection} else {})
    {
      var rest := connections;
      var unusedConnections := 0;
      ghost var failed := if ec then {connection} else {};
      ghost var used := set c | c in connections && c.inUse;
      while rest != {}
        invariant Sweeping(old(connections), used, failed, connections, rest, unusedConnections)
        decreases |rest|
      {
        var it :| it in rest;
        SweepNext(old(connections), used, failed, connections, rest, unusedConnections, it);
        rest := rest - {it};
        if ec && connection == it {
          connections := connections - {it};
        } else if !it.inUse {
          unusedConnections := unusedConnections + 1;
          if unusedConnections > 1 {
            connections := connections - {it};
          }
        }
      }
      SweptWhenDone(old(connections), used, failed, connections, unusedConnections);
    }

    /** The session is over, with or without an error. */
    method Callback(session: Session, ec: bool)
      requires Valid() && session in sessions && session.Active()
      modifies this`connections, session`phase, session.connection`inUse
      ensures Valid()
      ensures session.phase == Finished && !session.connection.inUse
      ensures Swept(old(connections), connections, if ec then {session.connection} else {})
    {
      session.connection.inUse := false;
      session.phase := Finished;
      Sweep(session.connection, ec);
    }

    /** The handler of a read header: a session whose connection may be stale tries once more on a new one. */
    method OnHeader(session: Session, result: HeaderResult)
      requires Valid() && session in sessions && session.phase == AwaitingHeader
      modifies this`connections, session, session.connection
      ensures Valid()
      ensures var previous := old(session.connection);
              var retry := result.ReadError? && !result.aborted
                           && old(previous.attemptReconnect) && previous in old(connections);
              if retry then
                && fresh(session.connection) && session.connection.inUse && !session.connection.attemptReconnect
                && connections == old(connections) - {previous} + {session.connection}
                && session.phase == AwaitingHeader && session.reconnects == 1 && old(session.reconnects) == 0
              else
                && session.connection == previous && session.reconnects == old(session.reconnects)
                && if result.MoreContent? then
                     session.phase == ReadingContent && connections == old(connections) && previous.inUse
                   else
                     && session.phase == Finished && !previous.inUse
                     && Swept(old(connections), connections, if result.WholeResponse? then {} else {previous})
    {
      match result
      case TooLarge => Callback(session, true);
      case Malformed =>
        session.phase := ReadingContent;
        session.connection.attemptReconnect := true;
        Callback(session, true);
      case WholeResponse =>
        session.phase := ReadingContent;
        session.connection.attemptReconnect := true;
        Callback(session, false);
      case MoreContent =>
        session.phase := ReadingContent;
        session.connection.attemptReconnect := true;
      case ReadError(aborted) =>
        if session.connection.attemptReconnect && !aborted && session.connection in connections {
          Reconnect(session);
        } else {
          Callback(session, true);
        }
    }

    method Reconnect(session: Session)
      requires Valid() && session in sessions && session.phase == AwaitingHeader
      requires session.connection.attemptReconnect && session.connection in connections
      modifies this`connections, session
      ensures Valid()
      ensures fresh(session.connection) && session.connection.inUse && !session.connection.attemptReconnect
      ensures connections == old(connections) - {old(session.connection)} + {session.connection}
      ensures session.phase == AwaitingHeader && session.reconnects == 1 && old(session.reconnects) == 0
    {
      connections := connections - {session.connection};
      session.connection := new Connection();
      session.connection.attemptReconnect := false;
      session.connection.inUse := true;
      session.reconnects := session.reconnects + 1;
      connections := connections + {session.connection};
    }

    /** `stop` drops every connection; sessions under way keep theirs until their callback. */
    method Stop()
      requires Valid()
      modifies this`connections
      ensures Valid() && connections == {}
    {
      connections := {};
    }

    ghost function ActiveSessions(): set<Session>
      reads this, sessions
    {
      set s | s in sessions && s.Active()
    }

    /** The pool never holds more connections than requests under way, and one. */
    lemma PoolIsBounded()
      requires Valid()
      ensures |connections| <= |ActiveSessions()| + 1
    {
      var used := set c | c in connections && c.inUse;
      var idle := connections - used;
      var owned := set s | s in ActiveSessions() :: s.connection;
      assert used <= owned;
      SubsetSize(used, owned);
      ImageSize(ActiveSessions());
      if idle != {} {
        var c :| c in idle;
        assert idle == {c};
      }
      assert connections == used + idle;
    }
  }
}
