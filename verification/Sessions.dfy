/** One machine's whole session: its part in the protocol together with the player in the maze. */
module Sessions {
  import opened Grids
  import opened Carving
  import opened ShortestPaths
  import opened Movement
  import Protocol

  const ESC_KEY := 0x81

  datatype Session = Session(node: Protocol.Node, body: Body)

  /** What the machine's loop reacts to: a key, a click in the menu, a serial interrupt that finds some bytes at the
      port, the timer. */
  datatype Event =
    | Key(press: Press)
    | Click(choice: Protocol.Choice)
    | Arrival(batch: seq<char>)
    | Tick

  /** The session after an event, and the bytes to send. */
  datatype Outcome = Outcome(session: Session, sent: seq<char>)

  function Fresh(host: bool): Session {
    Session(Protocol.Node(host, Protocol.Menu, Protocol.Waiting, false, false, Protocol.NO_BYTE), START)
  }

  function OnNode(s: Session, e: Protocol.Effect): Outcome {
    Outcome(s.(node := e.node), e.sent)
  }

  function React(g: Grid, s: Session, e: Event): Outcome {
    match e
    case Key(press) =>
      if press.key == ESC_KEY then Outcome(Session(Protocol.Escape(s.node), START), [])
      else if s.node.screen == Protocol.Game then Outcome(s.(body := Moved(g, s.body, press)), [])
      else Outcome(s, [])
    case Click(choice) =>
      if s.node.screen != Protocol.Menu then Outcome(s, [])
      else OnNode(s, Protocol.Respond(s.node, [], Protocol.Choose(s.node.host, choice)))
    case Arrival(batch) => OnNode(s, Protocol.Interrupt(s.node, batch))
    case Tick => OnNode(s, Protocol.Tick(s.node, Ended(g, s.body)))
  }

  /** What keys do: ESC resets game and player and leads to the menu; on the game screen any other key goes to the
      player, whether the game waits, runs or is over; elsewhere keys do nothing. */
  lemma KeyEventLaws(g: Grid, s: Session, press: Press)
    ensures var n := s.node; var o := React(g, s, Key(press));
      && o.sent == []
      && (press.key == 0x81 ==>
            && o.session.node == Protocol.Node(n.host, Protocol.Menu, Protocol.Waiting, false, false, n.last)
            && o.session.body == Body(50.0, 50.0))
      && (press.key != 0x81 ==>
            && o.session.node == n
            && o.session.body == if n.screen == Protocol.Game then Moved(g, s.body, press) else s.body)
  {}

  /** The action of the protocol that an event is, if it is one: moving the player is none. */
  function ActionOf(g: Grid, s: Session, e: Event): Option<Protocol.Action> {
    match e
    case Key(press) => if press.key == ESC_KEY then Some(Protocol.PressEsc(s.node.host)) else None
    case Click(choice) => if s.node.screen != Protocol.Menu then None else Some(Protocol.Choose(s.node.host, choice))
    case Arrival(batch) => Some(Protocol.Deliver(s.node.host, |batch|))
    case Tick => Some(Protocol.TimerTick(s.node.host, Ended(g, s.body)))
  }

  /** What an event does to a machine's part in the protocol is that action, or nothing. */
  lemma {:induction false} ReactionIsAction(g: Grid, s: Session, e: Event, channel: seq<char>)
    requires e.Arrival? ==> e.batch <= channel
    ensures var r := React(g, s, e);
      match ActionOf(g, s, e)
      case None => r.session.node == s.node && r.sent == []
      case Some(action) =>
        && action.atHost == s.node.host && !action.Lose?
        && Protocol.Fits(channel, action)
        && (action.Choose? ==> s.node.screen == Protocol.Menu)
        && Protocol.Effect(r.session.node, r.sent) == Protocol.Respond(s.node, channel, action)
  {}

  function After(g: Grid, host: bool, events: seq<Event>): Session {
    if events == [] then Fresh(host)
    else React(g, After(g, host, events[..|events| - 1]), events[|events| - 1]).session
  }

  /** The key presses that reached the player since ESC was pressed last. */
  function Presses(g: Grid, host: bool, events: seq<Event>): seq<Press> {
    if events == [] then []
    else
      var before, e := events[..|events| - 1], events[|events| - 1];
      if !e.Key? then Presses(g, host, before)
      else if e.press.key == ESC_KEY then []
      else if After(g, host, before).node.screen == Protocol.Game then Presses(g, host, before) + [e.press]
      else Presses(g, host, before)
  }

  /** The player stands where those presses lead. */
  lemma {:induction false} PressesLead(g: Grid, host: bool, events: seq<Event>)
    ensures After(g, host, events).body == Movement.After(g, Presses(g, host, events))
  {
    if events != [] {
      var before, e := events[..|events| - 1], events[|events| - 1];
      PressesLead(g, host, before);
      if e.Key? {
        var ps := Presses(g, host, before);
        assert (ps + [e.press])[..|ps|] == ps;
      }
    }
  }

  /** The node shows a win only where it did before or where the player has just reached the end. */
  lemma WinsShown(g: Grid, s: Session, e: Event)
    ensures var s' := React(g, s, e).session;
      && (s'.node.won ==> s.node.won || (Ended(g, s.body) && !e.Key?))
      && (e.Key? && e.press.key == ESC_KEY ==> !s'.node.won)
  {}

  /** The presses so far are a beginning of the presses after another event, unless that is ESC. */
  lemma {:induction false} PressesGrow(g: Grid, host: bool, events: seq<Event>, k: nat)
    requires events != [] && k <= |Presses(g, host, events[..|events| - 1])|
    requires var e := events[|events| - 1]; !(e.Key? && e.press.key == ESC_KEY)
    ensures var ps, ps' := Presses(g, host, events[..|events| - 1]), Presses(g, host, events);
      k <= |ps'| && ps'[..k] == ps[..k]
  {}

  /** A win shown goes back to one of the positions on the way. */
  lemma {:induction false} PressesCount(g: Grid, host: bool, events: seq<Event>) returns (k: nat)
    ensures After(g, host, events).body == Movement.After(g, Presses(g, host, events))
    ensures k <= |Presses(g, host, events)|
    ensures After(g, host, events).node.won ==> Ended(g, Movement.After(g, Presses(g, host, events)[..k]))
  {
    PressesLead(g, host, events);
    k := 0;
    if events != [] {
      hide React, Presses;
      var before, e := events[..|events| - 1], events[|events| - 1];
      var s, ps := After(g, host, before), Presses(g, host, before);
      k := PressesCount(g, host, before);
      WinsShown(g, s, e);
      if e.Key? && e.press.key == ESC_KEY {
        k := 0;
      } else {
        if !s.node.won {
          k := |ps|;
          assert ps[..k] == ps;
        }
        PressesGrow(g, host, events, k);
      }
    }
  }

  lemma {:induction false} TrailGrows(g: Grid, es: seq<Press>, k: nat)
    requires k <= |es|
    ensures forall p :: p in Trail(g, es[..k]) ==> p in Trail(g, es)
    ensures Displacements(g, es[..k]) <= Displacements(g, es)
  {
    if k < |es| {
      var before := es[..|es| - 1];
      TrailGrows(g, before, k);
      assert before[..k] == es[..k];
    } else {
      assert es[..k] == es;
    }
  }

  /** Whatever else happens in a session - games left and started, bytes from the other machine - a machine shows a win
      only if its player has, since ESC, been in every cell of the solution but (perhaps) the last two. */
  lemma {:induction false} WinsAreEarned(w: nat, h: nat, rand: nat -> nat, host: bool, events: seq<Event>, c: seq<Pos>)
    requires w > 0 && h > 0 && Solves(CarvedGrid(w, h, rand), c)
    requires forall e :: e in events && e.Key? ==> Real(e.press)
    requires After(CarvedGrid(w, h, rand), host, events).node.won
    ensures var g := CarvedGrid(w, h, rand); var es := Presses(g, host, events);
      (forall i :: 2 <= i < |c| ==> c[i] in Trail(g, es)) && Displacements(g, es) >= |c| - 3
  {
    var g := CarvedGrid(w, h, rand);
    var es := Presses(g, host, events);
    hide React, After, Presses, Solves, Trail, Displacements, CarvedGrid;
    var k := PressesCount(g, host, events);
    PressesAreKeys(g, host, events);
    forall i | 0 <= i < k ensures Real(es[..k][i]) {
      assert Key(es[i]) in events && Key(es[i]).Key?;
    }
    NoShortcuts(w, h, rand, es[..k], c);
    TrailGrows(g, es, k);
  }

  lemma {:induction false} PressesAreKeys(g: Grid, host: bool, events: seq<Event>)
    ensures forall p :: p in Presses(g, host, events) ==> Key(p) in events
  {
    if events != [] { PressesAreKeys(g, host, events[..|events| - 1]); }
  }
}
