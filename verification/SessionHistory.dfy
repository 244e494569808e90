/** Which events leave a session, read off the list of handled events alone. */
module SessionHistory {
  import opened Wire
  import opened Sessions

  /** An arrival of the target device `d` that can be opened. */
  predicate Admits(a: Answered, d: Device) {
    a.event.arrived && a.event.device == d && a.target && a.opens
  }

  predicate Departs(a: Answered, d: Device) {
    !a.event.arrived && a.event.device == d
  }

  /** Among the first `n` events, number `i` admits `d` and no departure of `d` follows. */
  ghost predicate LiveSince(handled: seq<Answered>, n: nat, d: Device, i: nat) {
    i < n <= |handled| && Admits(handled[i], d) && forall j | i < j < n :: !Departs(handled[j], d)
  }

  ghost predicate Live(handled: seq<Answered>, n: nat, d: Device) {
    exists i: nat :: LiveSince(handled, n, d, i)
  }

  /** Event `i` admits its device, which was not live. */
  ghost predicate Opening(handled: seq<Answered>, i: nat) {
    i < |handled| && Admits(handled[i], handled[i].event.device) && !Live(handled, i, handled[i].event.device)
  }

  ghost function Openings(handled: seq<Answered>, n: nat): (count: nat)
    requires n <= |handled|
  {
    if n == 0 then 0 else Openings(handled, n - 1) + Bit(Opening(handled, n - 1))
  }

  lemma LiveStep(handled: seq<Answered>, n: nat, d: Device)
    requires n < |handled|
    ensures Live(handled, n + 1, d) <==> Admits(handled[n], d) || (Live(handled, n, d) && !Departs(handled[n], d))
  {
    var m := n + 1;
    if Live(handled, m, d) {
      var i: nat :| LiveSince(handled, m, d, i);
      assert i < n ==> LiveSince(handled, n, d, i);
    }
    assert Admits(handled[n], d) ==> LiveSince(handled, m, d, n);
    if Live(handled, n, d) && !Departs(handled[n], d) {
      var i: nat :| LiveSince(handled, n, d, i);
      assert LiveSince(handled, m, d, i);
    }
  }

  lemma PrefixSnoc(handled: seq<Answered>, n: nat)
    requires n < |handled|
    ensures Replay(handled[..n + 1]) == Handle(Replay(handled[..n]), handled[n])
  {
    assert handled[..n + 1] == handled[..n] + [handled[n]];
    ReplaySnoc(handled[..n], handled[n]);
  }

  /** The sessions after the first `n` events are the live devices, and openings are counted. */
  lemma {:induction false} PrefixExact(handled: seq<Answered>, n: nat)
    requires n <= |handled|
    ensures forall d :: d in Replay(handled[..n]).sessions <==> Live(handled, n, d)
    ensures Replay(handled[..n]).openings == Openings(handled, n)
    decreases n
  {
    hide Live;
    if n == 0 {
      NothingLive(handled);
    } else {
      PrefixExact(handled, n - 1);
      PrefixSnoc(handled, n - 1);
      hide Replay;
      forall d ensures d in Replay(handled[..n]).sessions <==> Live(handled, n, d) {
        LiveStep(handled, n - 1, d);
      }
    }
  }

  lemma NothingLive(handled: seq<Answered>)
    ensures forall d :: !Live(handled, 0, d)
    ensures Replay(handled[..0]) == EMPTY_BOOK
  {
  }

  lemma NumberStep(book: Book, a: Answered, d: Device)
    requires d in Handle(book, a).sessions
    ensures d in book.sessions ==> !Departs(a, d) && Handle(book, a).sessions[d] == book.sessions[d]
    ensures d !in book.sessions ==> Admits(a, d) && Handle(book, a).sessions[d] == book.openings + 1
  {
  }

  /** A live session carries the number of the opening that made it: the first admission since the last departure. */
  lemma {:induction false} NumberExact(handled: seq<Answered>, n: nat, d: Device) returns (i: nat)
    requires n <= |handled| && d in Replay(handled[..n]).sessions
    ensures Opening(handled, i) && LiveSince(handled, n, d, i)
    ensures Replay(handled[..n]).sessions[d] == Openings(handled, i + 1)
    decreases n
  {
    i := 0;
    if n == 0 {
      NothingLive(handled);
    } else {
      var before, last := Replay(handled[..n - 1]), handled[n - 1];
      PrefixExact(handled, n - 1);
      PrefixSnoc(handled, n - 1);
      NumberStep(before, last, d);
      hide Replay, Live, Handle;
      if d in before.sessions {
        i := NumberExact(handled, n - 1, d);
      } else {
        i := n - 1;
      }
    }
  }

  /**
   Which events leave a session: device `d` has one exactly when an arrival of `d`, the target, could
   be opened and no departure of `d` came later.
   */
  lemma SessionsExact(handled: seq<Answered>, d: Device)
    ensures d in Replay(handled).sessions
            <==> exists i | 0 <= i < |handled| ::
                   && handled[i].event == Event(d, true) && handled[i].target && handled[i].opens
                   && forall j | i < j < |handled| :: handled[j].event != Event(d, false)
    ensures Replay(handled).openings == Openings(handled, |handled|)
    ensures d in Replay(handled).sessions ==>
              exists i | 0 <= i < |handled| ::
                && Opening(handled, i) && LiveSince(handled, |handled|, d, i)
                && Replay(handled).sessions[d] == Openings(handled, i + 1)
  {
    hide Replay, Openings, Opening;
    PrefixExact(handled, |handled|);
    assert handled[..|handled|] == handled;
    if d in Replay(handled).sessions {
      var i := NumberExact(handled, |handled|, d);
      assert handled[i].event == Event(d, true);
    }
    if i :| && 0 <= i < |handled| && handled[i].event == Event(d, true) && handled[i].target && handled[i].opens
            && forall j | i < j < |handled| :: handled[j].event != Event(d, false) {
      assert LiveSince(handled, |handled|, d, i);
    }
  }
}
