/** What the session worker does with hotplug events: sessions, generations, references and handles. */
module Sessions {
  import opened Wire

  type Device = nat

  const TWO_64: nat := U64_MAX + 1

  datatype Event = Event(device: Device, arrived: bool)

  /** An event with what libusb answers while it is handled: is it the target, does it open. */
  datatype Answered = Answered(event: Event, target: bool, opens: bool)

  /** How many of the events concern device `d`. */
  function Mentions(events: seq<Event>, d: Device): (n: nat) {
    if events == [] then 0
    else Mentions(events[..|events| - 1], d) + if events[|events| - 1].device == d then 1 else 0
  }

  /** Live sessions by device with the unbounded number of their opening, and how many were opened. */
  datatype Book = Book(sessions: map<Device, nat>, openings: nat)

  const EMPTY_BOOK := Book(map[], 0)

  predicate OpensSession(book: Book, a: Answered) {
    a.event.arrived && a.target && a.event.device !in book.sessions && a.opens
  }

  /** The effect of one event on the sessions. */
  function Handle(book: Book, a: Answered): (book': Book) {
    var d := a.event.device;
    if OpensSession(book, a) then Book(book.sessions[d := book.openings + 1], book.openings + 1)
    else if !a.event.arrived then book.(sessions := book.sessions - {d})
    else book
  }

  /** The effect of events handled one after the other. */
  function ReplayFrom(book: Book, handled: seq<Answered>): (book': Book) {
    if handled == [] then book else Handle(ReplayFrom(book, handled[..|handled| - 1]), handled[|handled| - 1])
  }

  function Replay(handled: seq<Answered>): (book: Book) {
    ReplayFrom(EMPTY_BOOK, handled)
  }

  /** `generation_` is a 64-bit counter. */
  function Generation(opening: nat): (g: u64) {
    opening % TWO_64
  }

  lemma ReplaySnoc(handled: seq<Answered>, a: Answered)
    ensures forall book :: ReplayFrom(book, handled + [a]) == Handle(ReplayFrom(book, handled), a)
    ensures Replay(handled + [a]) == Handle(Replay(handled), a)
  {
    assert (handled + [a])[..|handled|] == handled;
  }

  predicate Distinct(book: Book) {
    && (forall d | d in book.sessions :: 1 <= book.sessions[d] <= book.openings)
    && (forall d, e | d in book.sessions && e in book.sessions && d != e :: book.sessions[d] != book.sessions[e])
  }

  lemma HandleKeepsDistinct(book: Book, a: Answered)
    requires Distinct(book)
    ensures Distinct(Handle(book, a))
  {
  }

  /** Opening numbers of live sessions are distinct and at most the number of openings. */
  lemma {:induction false} OpeningsDistinct(handled: seq<Answered>)
    ensures Distinct(Replay(handled))
    decreases |handled|
  {
    if handled != [] {
      OpeningsDistinct(handled[..|handled| - 1]);
      HandleKeepsDistinct(Replay(handled[..|handled| - 1]), handled[|handled| - 1]);
    }
  }

  /** Two openings carry the same generation exactly when they are a multiple of 2^64 apart. */
  lemma GenerationRepeats(a: nat, b: nat)
    ensures Generation(a) == Generation(b) <==> (b - a) % TWO_64 == 0
    ensures a < b < TWO_64 ==> Generation(a) < Generation(b)
  {
  }

  lemma SmallDifference(d: int)
    requires d != 0 && 0 < d + TWO_64 && d < TWO_64
    ensures d % TWO_64 != 0
  {
  }

  lemma NearbyOpeningsDiffer(a: nat, b: nat)
    requires a != b && 1 <= a <= TWO_64 && 1 <= b <= TWO_64
    ensures Generation(a) != Generation(b)
  {
    hide Generation;
    GenerationRepeats(a, b);
    SmallDifference(b - a);
  }

  /** No two live sessions share a generation. */
  predicate GenerationsDistinct(book: Book) {
    forall d, e | d in book.sessions && e in book.sessions && d != e ::
      Generation(book.sessions[d]) != Generation(book.sessions[e])
  }

  /** Up to 2^64 openings, no two live sessions share a generation. */
  lemma LiveGenerationsDistinct(handled: seq<Answered>)
    requires Replay(handled).openings <= TWO_64
    ensures GenerationsDistinct(Replay(handled))
  {
    hide Replay, Generation;
    OpeningsDistinct(handled);
    var book := Replay(handled);
    forall d, e | d in book.sessions && e in book.sessions && d != e
      ensures Generation(book.sessions[d]) != Generation(book.sessions[e])
    {
      NearbyOpeningsDiffer(book.sessions[d], book.sessions[e]);
    }
  }

  /** Device 0 arrives and stays; device 1 arrives and departs `n` times. */
  function Replugs(n: nat): (handled: seq<Answered>) {
    if n == 0 then [Answered(Event(0, true), true, true)]
    else Replugs(n - 1) + [Answered(Event(1, true), true, true)] + [Answered(Event(1, false), true, true)]
  }

  lemma {:induction false} ReplugsOpenings(n: nat)
    ensures Replay(Replugs(n)) == Book(map[0 := 1], n + 1)
    decreases n
  {
    var arrival, departure := Answered(Event(1, true), true, true), Answered(Event(1, false), true, true);
    if n == 0 {
      ReplaySnoc([], Answered(Event(0, true), true, true));
      assert [] + Replugs(0) == Replugs(0);
    } else {
      hide Replay;
      ReplugsOpenings(n - 1);
      ReplaySnoc(Replugs(n - 1), arrival);
      ReplaySnoc(Replugs(n - 1) + [arrival], departure);
      assert map[0 := 1, 1 := n + 1] - {1} == map[0 := 1];
    }
  }

  /** One opening more, and two live sessions can share a generation. */
  lemma LiveGenerationsCanCollide() returns (handled: seq<Answered>)
    ensures Replay(handled).openings == TWO_64 + 1 && !GenerationsDistinct(Replay(handled))
  {
    hide Replay, Replugs;
    var again := Answered(Event(1, true), true, true);
    handled := Replugs(TWO_64 - 1) + [again];
    ReplugsOpenings(TWO_64 - 1);
    ReplaySnoc(Replugs(TWO_64 - 1), again);
    var book := Replay(handled);
    assert Generation(book.sessions[0]) == Generation(book.sessions[1]);
  }

  /** At most n openings keep the live generations distinct, whatever the events, exactly for n up to 2^64. */
  lemma GenerationsDistinctExactly(n: nat)
    ensures (forall handled :: Replay(handled).openings <= n ==> GenerationsDistinct(Replay(handled))) <==> n <= TWO_64
  {
    hide Replay, GenerationsDistinct;
    if n <= TWO_64 {
      forall handled | Replay(handled).openings <= n ensures GenerationsDistinct(Replay(handled)) {
        LiveGenerationsDistinct(handled);
      }
    } else {
      var handled := LiveGenerationsCanCollide();
      assert Replay(handled).openings <= n;
    }
  }

  lemma MentionsSnoc(events: seq<Event>, e: Event, d: Device)
    ensures Mentions(events + [e], d) == Mentions(events, d) + if e.device == d then 1 else 0
  {
    assert (events + [e])[..|events|] == events;
  }

  lemma {:induction false} MentionsCons(events: seq<Event>, d: Device)
    requires events != []
    ensures Mentions(events, d) == (if events[0].device == d then 1 else 0) + Mentions(events[1..], d)
    decreases |events|
  {
    if |events| == 1 {
      assert events[..0] == [] && events[1..] == [];
    } else {
      var init, last := events[..|events| - 1], events[|events| - 1];
      MentionsCons(init, d);
      assert events[1..] == init[1..] + [last];
      MentionsSnoc(init[1..], last, d);
    }
  }

  lemma {:induction false} OpeningsGrow(handled: seq<Answered>, i: nat, j: nat)
    requires i <= j <= |handled|
    ensures Replay(handled[..i]).openings <= Replay(handled[..j]).openings
    decreases j
  {
    if i < j {
      OpeningsGrow(handled, i, j - 1);
      assert handled[..j] == handled[..j - 1] + [handled[j - 1]];
      ReplaySnoc(handled[..j - 1], handled[j - 1]);
    }
  }

  /** Sessions opened later have a greater opening number, and a greater generation below 2^64. */
  lemma OpeningOrder(handled: seq<Answered>, i: nat, j: nat)
    requires i < j < |handled|
    requires OpensSession(Replay(handled[..i]), handled[i]) && OpensSession(Replay(handled[..j]), handled[j])
    ensures var first, second := Replay(handled[..i + 1]), Replay(handled[..j + 1]);
            && handled[i].event.device in first.sessions && handled[j].event.device in second.sessions
            && first.sessions[handled[i].event.device] < second.sessions[handled[j].event.device]
            && (second.openings < TWO_64 ==>
                  Generation(first.sessions[handled[i].event.device]) < Generation(second.sessions[handled[j].event.device]))
  {
    hide Replay;
    assert handled[..i + 1] == handled[..i] + [handled[i]] && handled[..j + 1] == handled[..j] + [handled[j]];
    ReplaySnoc(handled[..i], handled[i]);
    ReplaySnoc(handled[..j], handled[j]);
    OpeningsGrow(handled, i + 1, j);
  }
}
