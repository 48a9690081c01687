/** The stream relay's hub: who is subscribed to which session, and how many connections that makes. */
module Hub {
  type SessionId = string

  class Subscriber {
    var closed: bool
    var drops: nat

    constructor ()
      ensures !closed && drops == 0
    {
      closed, drops := false, 0;
    }

    /** Closing twice is the same as closing once. */
    method Close()
      modifies this`closed
      ensures closed
    {
      if !closed {
        closed := true;
      }
    }
  }

  ghost function Pairs(sessions: map<SessionId, set<Subscriber>>): set<(SessionId, Subscriber)> {
    set id, sub | id in sessions && sub in sessions[id] :: (id, sub)
  }

  function Of(sessions: map<SessionId, set<Subscriber>>, id: SessionId): set<Subscriber> {
    if id in sessions then sessions[id] else {}
  }

  lemma PairsAdd(sessions: map<SessionId, set<Subscriber>>, id: SessionId, sub: Subscriber)
    requires sub !in Of(sessions, id)
    ensures |Pairs(sessions[id := Of(sessions, id) + {sub}])| == |Pairs(sessions)| + 1
  {
    var before, after := Pairs(sessions), Pairs(sessions[id := Of(sessions, id) + {sub}]);
    forall x, y ensures (x, y) in after <==> (x, y) in before || (x, y) == (id, sub) {
      assert (x, y) in after <==> x in sessions[id := Of(sessions, id) + {sub}] && y in sessions[id := Of(sessions, id) + {sub}][x];
    }
    assert after == before + {(id, sub)};
    assert (id, sub) !in before;
  }

  lemma PairsRemove(sessions: map<SessionId, set<Subscriber>>, id: SessionId, sub: Subscriber)
    requires id in sessions && sub in sessions[id]
    ensures |Pairs(sessions[id := sessions[id] - {sub}])| == |Pairs(sessions)| - 1
  {
    var before, after := Pairs(sessions), Pairs(sessions[id := sessions[id] - {sub}]);
    forall x, y ensures (x, y) in after <==> (x, y) in before && (x, y) != (id, sub) {
      assert (x, y) in after <==> x in sessions && y in sessions[id := sessions[id] - {sub}][x];
    }
    assert after == before - {(id, sub)};
    assert (id, sub) in before;
  }

  lemma PairsWithoutEmpty(sessions: map<SessionId, set<Subscriber>>, id: SessionId)
    requires id in sessions && sessions[id] == {}
    ensures Pairs(sessions - {id}) == Pairs(sessions)
  {
  }

  lemma {:induction false} SubscriberPairs(id: SessionId, subs: set<Subscriber>)
    ensures |set sub | sub in subs :: (id, sub)| == |subs|
  {
    var pairs := set sub | sub in subs :: (id, sub);
    if subs != {} {
      var sub :| sub in subs;
      SubscriberPairs(id, subs - {sub});
      assert pairs == (set s | s in subs - {sub} :: (id, s)) + {(id, sub)};
    } else {
      assert pairs == {};
    }
  }

  /** The subscriptions of the sessions ids, among all. */
  ghost function PairsOf(sessions: map<SessionId, set<Subscriber>>, ids: set<SessionId>): set<(SessionId, Subscriber)> {
    set id, sub | id in sessions && id in ids && sub in sessions[id] :: (id, sub)
  }

  lemma PairsOfMore(sessions: map<SessionId, set<Subscriber>>, ids: set<SessionId>, id: SessionId)
    requires id in sessions && id !in ids
    ensures |PairsOf(sessions, ids + {id})| == |PairsOf(sessions, ids)| + |sessions[id]|
  {
    SubscriberPairs(id, sessions[id]);
    var here := set sub | sub in sessions[id] :: (id, sub);
    assert PairsOf(sessions, ids + {id}) == PairsOf(sessions, ids) + here;
    assert PairsOf(sessions, ids) !! here;
  }

  lemma PairsOfAll(sessions: map<SessionId, set<Subscriber>>)
    ensures PairsOf(sessions, {}) == {} && PairsOf(sessions, sessions.Keys) == Pairs(sessions)
  {
  }

  class Hub {
    const maxConns: nat
    var sessions: map<SessionId, set<Subscriber>>
    var activeConns: int

    /** The counter is the number of subscriptions, within bounds, and no session is kept without any. */
    ghost predicate Valid()
      reads this
    {
      && activeConns == |Pairs(sessions)| <= maxConns
      && (forall id :: id in sessions ==> sessions[id] != {})
    }

    function Subscribers(id: SessionId): set<Subscriber>
      reads this
    {
      Of(sessions, id)
    }

    constructor (maxConns: nat)
      ensures Valid() && this.maxConns == maxConns && sessions == map[]
    {
      this.maxConns := maxConns;
      sessions := map[];
      activeConns := 0;
      new;
      assert Pairs(sessions) == {};
    }

    method Subscribe(sessionID: SessionId) returns (sub: Subscriber?)
      requires Valid()
      modifies this
      ensures Valid()
      ensures sub == null <==> old(activeConns) == maxConns
      ensures sub == null ==> sessions == old(sessions)
      ensures sub != null ==> fresh(sub) && !sub.closed && sub.drops == 0
      ensures sub != null ==> Subscribers(sessionID) == old(Subscribers(sessionID)) + {sub}
      ensures forall id :: id != sessionID ==> Subscribers(id) == old(Subscribers(id))
    {
      hide Pairs;
      if activeConns >= maxConns {
        return null;
      }
      activeConns := activeConns + 1;
      var created := new Subscriber();
      var subs := if sessionID in sessions then sessions[sessionID] else {};
      PairsAdd(sessions, sessionID, created);
      sessions := sessions[sessionID := subs + {created}];
      return created;
    }

    /** Any subscriber may be named with any session, any number of times. */
    method Unsubscribe(sessionID: SessionId, sub: Subscriber)
      requires Valid()
      modifies this, sub`closed
      ensures Valid() && sub.closed
      ensures Subscribers(sessionID) == old(Subscribers(sessionID)) - {sub}
      ensures forall id :: id != sessionID ==> Subscribers(id) == old(Subscribers(id))
    {
      hide Pairs;
      if sessionID in sessions {
        var subs := sessions[sessionID];
        if sub in subs {
          PairsRemove(sessions, sessionID, sub);
          subs := subs - {sub};
          sessions := sessions[sessionID := subs];
          activeConns := activeConns - 1;
        }
        if |subs| == 0 {
          PairsWithoutEmpty(sessions, sessionID);
          sessions := sessions - {sessionID};
        }
      }
      sub.Close();
    }

    /** Counting the subscribers session by session gives the counter. */
    method TotalSubscribers() returns (total: int)
      requires Valid()
      ensures total == activeConns
    {
      hide Pairs, PairsOf;
      total := 0;
      var rest := sessions.Keys;
      PairsOfAll(sessions);
      assert sessions.Keys - rest == {};
      while rest != {}
        invariant rest <= sessions.Keys
        invariant total == |PairsOf(sessions, sessions.Keys - rest)|
      {
        var id :| id in rest;
        PairsOfMore(sessions, sessions.Keys - rest, id);
        assert sessions.Keys - (rest - {id}) == sessions.Keys - rest + {id};
        total := total + |sessions[id]|;
        rest := rest - {id};
      }
      assert sessions.Keys - {} == sessions.Keys;
    }
  }
}
