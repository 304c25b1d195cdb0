/** A game from the first click to the win. */
module Playing {
  import opened Grids
  import opened Carving
  import opened Movement
  import opened Winning
  import opened Sessions
  import Protocol

  function Keys(es: seq<Press>): seq<Event> {
    if es == [] then [] else Keys(es[..|es| - 1]) + [Key(es[|es| - 1])]
  }

  lemma {:induction false} AfterEvent(g: Grid, host: bool, events: seq<Event>, e: Event)
    ensures Sessions.After(g, host, events + [e]) == React(g, Sessions.After(g, host, events), e).session
  {
    assert (events + [e])[..|events|] == events;
  }

  /** On the game screen the keys move the player as they do in Movement. */
  lemma {:induction false} KeysPlayed(g: Grid, host: bool, events: seq<Event>, es: seq<Press>)
    requires var s := Sessions.After(g, host, events); s.node.screen == Protocol.Game && s.body == START
    requires forall i :: 0 <= i < |es| ==> es[i].key != 0x81
    ensures Sessions.After(g, host, events + Keys(es)) ==
            Session(Sessions.After(g, host, events).node, Movement.After(g, es))
  {
    hide Moved, React;
    if es == [] {
      assert events + Keys(es) == events;
    } else {
      var before, e := es[..|es| - 1], es[|es| - 1];
      KeysPlayed(g, host, events, before);
      assert events + Keys(es) == events + Keys(before) + [Key(e)];
      AfterEvent(g, host, events + Keys(before), Key(e));
      KeyEventLaws(g, Sessions.After(g, host, events + Keys(before)), e);
    }
  }

  /** A click on single-player, the presses es, and a tick of the clock. */
  function Game(es: seq<Press>): seq<Event> {
    [] + [Click(Protocol.Single)] + Keys(es) + [Tick]
  }

  /** A machine just started is in the game as soon as its user clicks on single-player. */
  lemma {:induction false} ClickStarts(g: Grid, host: bool)
    ensures Sessions.After(g, host, [] + [Click(Protocol.Single)]) ==
            Session(Protocol.Node(host, Protocol.Game, Protocol.Running, false, false, 1 as char), START)
  {
    AfterEvent(g, host, [], Click(Protocol.Single));
  }

  /** Presses that get the player to the end win the game, at the next tick. */
  lemma {:induction false} GameIsWon(g: Grid, host: bool, es: seq<Press>)
    requires Ended(g, Movement.After(g, es)) && forall i :: 0 <= i < |es| ==> es[i].key != 0x81
    ensures Sessions.After(g, host, Game(es)) ==
            Session(Protocol.Node(host, Protocol.Game, Protocol.Finish, false, true, 1 as char),
                    Movement.After(g, es))
  {
    ClickStarts(g, host);
    var clicked := [] + [Click(Protocol.Single)];
    assert Sessions.After(g, host, clicked).body == START;
    hide Ended, Sessions.After;
    KeysPlayed(g, host, clicked, es);
    AfterEvent(g, host, clicked + Keys(es), Tick);
  }

  /** For every generated maze, on either machine: a click on single-player, some presses and a tick lead to a win. */
  lemma {:induction false} SinglePlayerCanWin(w: nat, h: nat, rand: nat -> nat, host: bool, turning: bool)
    returns (es: seq<Press>)
    requires w > 0 && h > 0
    ensures |es| <= 10 * (w * h - 1)
    ensures var n := Sessions.After(CarvedGrid(w, h, rand), host, Game(es)).node;
      n.screen == Protocol.Game && n.phase == Protocol.Finish && n.won && !n.multi
  {
    hide Sessions.After, Movement.After, CarvedGrid, Ended;
    es := CarvedIsWinnable(w, h, rand, turning);
    forall i | 0 <= i < |es| ensures es[i].key != 0x81 {
      assert Plays(es[i], turning);
      var d :| es[i] == PressFor(d, turning);
    }
    GameIsWon(CarvedGrid(w, h, rand), host, es);
  }
}
