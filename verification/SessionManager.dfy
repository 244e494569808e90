/** `SessionManager` run by one thread at a time: what each member function does to the fields. */
module SessionManagers {
  import opened Wire
  import opened Sessions

  /** What is held, as values: references, open handles, and who needs them. */
  datatype Holdings = Holdings(refs: multiset<Device>, handles: multiset<Device>, sessions: set<Device>)

  /** Every queued event and every session owns one reference; every session owns one handle. */
  predicate Owned(h: Holdings, queue: seq<Event>, d: Device) {
    h.refs[d] == Mentions(queue, d) + Bit(d in h.sessions) && h.handles[d] == Bit(d in h.sessions)
  }

  /** References and handles follow the sessions: one of each per session made or destroyed. */
  predicate Follows(h: Holdings, h': Holdings, d: Device) {
    && h'.refs[d] == h.refs[d] + Bit(d in h'.sessions) - Bit(d in h.sessions)
    && h'.handles[d] == h.handles[d] + Bit(d in h'.sessions) - Bit(d in h.sessions)
  }

  ghost predicate AllOwned(h: Holdings, queue: seq<Event>) {
    forall d: Device :: Owned(h, queue, d)
  }

  ghost predicate AllFollow(h: Holdings, h': Holdings) {
    forall d: Device :: Follows(h, h', d)
  }

  lemma DepartureFollows(h: Holdings, d: Device)
    requires d in h.sessions && h.refs[d] >= 1 && h.handles[d] >= 1
    ensures AllFollow(h, Holdings(h.refs - multiset{d}, h.handles - multiset{d}, h.sessions - {d}))
  {
  }

  lemma EnqueueOwned(h: Holdings, queue: seq<Event>, e: Event)
    requires AllOwned(h, queue)
    ensures AllOwned(h.(refs := h.refs + multiset{e.device}), queue + [e])
  {
    hide Mentions;
    forall d: Device ensures Owned(h.(refs := h.refs + multiset{e.device}), queue + [e], d) {
      assert Owned(h, queue, d);
      MentionsSnoc(queue, e, d);
    }
  }

  /** The event's reference is dropped once its device has been handled. */
  lemma FinishOwned(h: Holdings, h': Holdings, queue: seq<Event>)
    requires queue != [] && AllOwned(h, queue) && AllFollow(h, h')
    ensures AllOwned(h'.(refs := h'.refs - multiset{queue[0].device}), queue[1..])
  {
    hide Mentions;
    forall d: Device ensures Owned(h'.(refs := h'.refs - multiset{queue[0].device}), queue[1..], d) {
      assert Owned(h, queue, d) && Follows(h, h', d);
      MentionsCons(queue, d);
    }
  }

  lemma DestroyOwned(h: Holdings, queue: seq<Event>, d: Device)
    requires AllOwned(h, queue) && d in h.sessions
    ensures AllOwned(Holdings(h.refs - multiset{d}, h.handles - multiset{d}, h.sessions - {d}), queue)
  {
    hide Mentions;
    forall e: Device ensures Owned(Holdings(h.refs - multiset{d}, h.handles - multiset{d}, h.sessions - {d}), queue, e) {
      assert Owned(h, queue, e);
    }
  }

  lemma NothingHeld(h: Holdings)
    requires AllOwned(h, []) && h.sessions == {}
    ensures h.refs == multiset{} && h.handles == multiset{}
  {
    forall d: Device ensures h.refs[d] == 0 && h.handles[d] == 0 {
      assert Owned(h, [], d);
    }
    assert forall d :: d !in h.refs && d !in h.handles;
  }

  class SessionManager {
    var queue: seq<Event>
    var sessions: map<Device, nat>
    var openings: nat
    var stopping: bool
    var refs: multiset<Device>
    var handles: multiset<Device>

    ghost function Held(): (h: Holdings)
      reads this
    {
      Holdings(refs, handles, sessions.Keys)
    }

    ghost predicate Valid()
      reads this
    {
      AllOwned(Held(), queue)
    }

    ghost function Ledger(): (book: Book)
      reads this
    {
      Book(sessions, openings)
    }

    constructor ()
      ensures Valid() && queue == [] && Ledger() == EMPTY_BOOK && !stopping
    {
      queue, sessions, openings, stopping := [], map[], 0, false;
      refs, handles := multiset{}, multiset{};
    }

    method Enqueue(event: Event)
      requires Valid()
      modifies this
      ensures Valid()
      ensures queue == if stopping then old(queue) else old(queue) + [event]
      ensures Ledger() == old(Ledger()) && stopping == old(stopping)
    {
      hide AllOwned;
      refs := refs + multiset{event.device};
      if stopping {
        refs := refs - multiset{event.device};
        assert Held() == old(Held());
        return;
      }
      EnqueueOwned(old(Held()), queue, event);
      queue := queue + [event];
    }

    method HandleArrival(device: Device, target: bool, opens: bool)
      modifies this`sessions, this`openings, this`refs, this`handles
      ensures Ledger() == Handle(old(Ledger()), Answered(Event(device, true), target, opens))
      ensures device in sessions <==> device in old(sessions) || (target && opens)
      ensures sessions == old(sessions) || (device !in old(sessions) && sessions == old(sessions)[device := openings])
      ensures openings == old(openings) + |sessions.Keys| - |old(sessions.Keys)|
      ensures AllFollow(old(Held()), Held())
    {
      if !target || device in sessions {
        return;
      }
      if !opens {
        return;
      }
      handles := handles + multiset{device};
      refs := refs + multiset{device};
      openings := openings + 1;
      sessions := sessions[device := openings];
    }

    method HandleDeparture(device: Device)
      requires device in sessions ==> refs[device] >= 1 && handles[device] >= 1
      modifies this`sessions, this`refs, this`handles
      ensures sessions == old(sessions) - {device}
      ensures AllFollow(old(Held()), Held())
    {
      if device !in sessions {
        return;
      }
      DepartureFollows(Held(), device);
      hide AllFollow;
      ghost var before := sessions.Keys;
      sessions := sessions - {device};
      assert sessions.Keys == before - {device};
      handles := handles - multiset{device};
      refs := refs - multiset{device};
    }

    /** The body of the worker's loop for one event. */
    method HandleFront(target: bool, opens: bool)
      requires Valid() && queue != []
      modifies this
      ensures Valid() && stopping == old(stopping)
      ensures queue == old(queue)[1..]
      ensures Ledger() == Handle(old(Ledger()), Answered(old(queue)[0], target, opens))
    {
      hide Handle, AllFollow, Mentions;
      var event := queue[0];
      assert Owned(Held(), queue, event.device);
      hide AllOwned;
      queue := queue[1..];
      if event.arrived {
        HandleArrival(event.device, target, opens);
      } else {
        HandleDeparture(event.device);
        DepartureIsHandled(old(Ledger()), event, target, opens);
      }
      FinishOwned(old(Held()), Held(), old(queue));
      refs := refs - multiset{event.device};
    }

    static lemma DepartureIsHandled(book: Book, event: Event, target: bool, opens: bool)
      requires !event.arrived
      ensures Handle(book, Answered(event, target, opens)) == book.(sessions := book.sessions - {event.device})
    {
    }

    /**
     The worker after `stop`: it handles what is queued, in order, then destroys every session. Its
     loop ends with an empty queue, so the source's loop over leftover events has nothing to do.
     */
    method DrainAndExit(answers: nat -> (bool, bool)) returns (ghost handled: seq<Answered>)
      requires Valid() && stopping
      modifies this
      ensures |handled| == |old(queue)| && forall i | 0 <= i < |handled| :: handled[i].event == old(queue)[i]
      ensures openings == ReplayFrom(old(Ledger()), handled).openings
      ensures queue == [] && sessions == map[] && refs == multiset{} && handles == multiset{}
    {
      handled := [];
      var k := 0;
      while queue != []
        invariant Valid() && stopping
        invariant k == |handled| <= |old(queue)| && queue == old(queue)[k..]
        invariant forall i | 0 <= i < k :: handled[i].event == old(queue)[i]
        invariant Ledger() == ReplayFrom(old(Ledger()), handled)
        decreases |queue|
      {
        ghost var a := Answered(queue[0], answers(k).0, answers(k).1);
        HandleFront(answers(k).0, answers(k).1);
        ReplaySnoc(handled, a);
        handled := handled + [a];
        k := k + 1;
      }
      DestroySessions();
    }

    method DestroySessions()
      requires Valid() && queue == []
      modifies this`sessions, this`refs, this`handles
      ensures sessions == map[] && refs == multiset{} && handles == multiset{}
    {
      hide AllOwned, Owned, Mentions;
      while sessions.Keys != {}
        invariant Valid()
        decreases |sessions.Keys|
      {
        var d :| d in sessions.Keys;
        DestroyOwned(Held(), queue, d);
        ghost var before := sessions.Keys;
        handles := handles - multiset{d};
        refs := refs - multiset{d};
        sessions := sessions - {d};
        assert sessions.Keys == before - {d};
      }
      NothingHeld(Held());
    }
  }
}
