/** How games between two machines start and end. */
module Endings {
  import opened Protocol

  // ----- the start

  predicate Quiet(w: World) {
    w.toHost == [] && w.toClient == []
  }

  /** From w the bytes under way arrive one by one, in any order of the two channels, while the clocks tick. */
  predicate Trickle(w: World, schedule: seq<Action>)
    decreases |schedule|
  {
    schedule == [] ||
    var a := schedule[0];
    (a.TimerTick? || (a.Deliver? && a.count == 1)) && Enabled(w, a) && Trickle(Next(w, a), schedule[1..])
  }

  function Trickled(w: World, schedule: seq<Action>): World
    requires Trickle(w, schedule)
    decreases |schedule|
  {
    if schedule == [] then w else Trickled(Next(w, schedule[0]), schedule[1..])
  }

  /** The node's greeting, when it comes, makes the peer answer with its own. */
  predicate WillAnswer(peer: Node) {
    peer.multi && (peer.host || peer.phase == Waiting)
  }

  /** The node waits no longer, or the peer's greeting is under way to it, or the peer will still answer. */
  predicate WillStart(w: World, atHost: bool) {
    var n, peer := At(w, atHost), At(w, !atHost);
    || n.phase != Waiting
    || PeerGreeting(n) in Channel(w, atHost)
    || (WillAnswer(peer) && Greeting(n) in Channel(w, !atHost))
  }

  lemma {:induction false} HearingKeepsWillStart(w: World, atHost: bool, hearer: bool)
    requires Alive(w) && At(w, atHost).multi && Channel(w, hearer) != []
    ensures var w' := Next(w, Deliver(hearer, 1));
      At(w', atHost).multi && (WillStart(w', atHost) <==> WillStart(w, atHost))
  {
    var n, inbox := At(w, hearer), Channel(w, hearer);
    var c := inbox[0];
    HeardDecides(n, inbox, 1);
    assert inbox == [c] + inbox[1..];
    assert forall d :: d in inbox <==> d == c || d in inbox[1..];
    var e := Process(n.(last := c), c);
    assert Next(w, Deliver(hearer, 1)) == Apply(w, hearer, inbox[1..], e);
    var other := Channel(w, !hearer);
    assert forall d :: d in other + e.sent <==> d in other || d in e.sent;
  }

  lemma {:induction false} TickKeepsWillStart(w: World, atHost: bool, a: Action)
    requires Alive(w) && At(w, atHost).multi && a.TimerTick?
    ensures At(Next(w, a), atHost).multi && (WillStart(Next(w, a), atHost) <==> WillStart(w, atHost))
  {
    var other, e := Channel(w, !a.atHost), Respond(At(w, a.atHost), Channel(w, a.atHost), a);
    assert forall d :: d in other + e.sent <==> d in other || d in e.sent;
  }

  lemma {:induction false} TrickleKeepsWillStart(w: World, atHost: bool, schedule: seq<Action>)
    requires Alive(w) && At(w, atHost).multi && Trickle(w, schedule)
    ensures WillStart(Trickled(w, schedule), atHost) <==> WillStart(w, atHost)
    decreases |schedule|
  {
    if schedule != [] {
      var a := schedule[0];
      if a.Deliver? { HearingKeepsWillStart(w, atHost, a.atHost); } else { TickKeepsWillStart(w, atHost, a); }
      AliveKept(w, a);
      TrickleKeepsWillStart(Next(w, a), atHost, schedule[1..]);
    }
  }

  /** From any state - after ESC, after dropped or lost bytes - and whatever is under way, when the bytes arrive one by
      one until none is left: a node in multiplayer is left waiting if and only if WillStart was false. */
  lemma {:induction false} WaitEndsExactly(w: World, atHost: bool, schedule: seq<Action>)
    requires Alive(w) && At(w, atHost).multi && Trickle(w, schedule) && Quiet(Trickled(w, schedule))
    ensures At(Trickled(w, schedule), atHost).phase != Waiting <==> WillStart(w, atHost)
  {
    TrickleKeepsWillStart(w, atHost, schedule);
  }

  /** When a waiting user chooses multiplayer: a host's game starts exactly if the client's greeting is under way, or
      the client is in multiplayer and waits; a client's exactly if the host's greeting is under way, or the host is
      in multiplayer. */
  lemma {:induction false} ChoiceStartsGame(w: World, atHost: bool, schedule: seq<Action>)
    requires Alive(w) && At(w, atHost).screen == Menu && At(w, atHost).phase == Waiting
    requires Trickle(Next(w, Choose(atHost, Multi)), schedule)
    requires Quiet(Trickled(Next(w, Choose(atHost, Multi)), schedule))
    ensures At(Trickled(Next(w, Choose(atHost, Multi)), schedule), atHost).phase != Waiting <==>
            if atHost then 'S' in w.toHost || (w.client.multi && w.client.phase == Waiting)
            else 'M' in w.toClient || w.host.multi
  {
    AliveKept(w, Choose(atHost, Multi));
    WaitEndsExactly(Next(w, Choose(atHost, Multi)), atHost, schedule);
  }

  /** From every state there is such a schedule. */
  lemma {:induction false} ComesToRest(w: World) returns (schedule: seq<Action>)
    requires Alive(w)
    ensures Trickle(w, schedule) && Quiet(Trickled(w, schedule))
    decreases Measure(w)
  {
    schedule := [];
    if !Quiet(w) {
      var a := Deliver(w.toHost != [], 1);
      AliveKept(w, a);
      ProductiveLowers(w, a);
      var rest := ComesToRest(Next(w, a));
      schedule := [a] + rest;
      assert schedule[1..] == rest;
    }
  }

  const DROPPED: seq<Action> := STARTED + [TimerTick(false, true)] + [PressEsc(false)] + [Choose(false, Multi)] +
                                [Deliver(true, 2)]

  /** Batches can leave a node waiting too: the client's game is over and its user chooses again, but the greeting that
      should bring the host's answer is dropped behind the message that the client won. */
  lemma BatchCanDeadlock()
    ensures Possible(DROPPED)
    ensures var w := After(DROPPED);
      && Quiet(w) && w.host.multi && w.client.multi
      && w.client.phase == Waiting && !WillStart(w, false) && w.client.last == 'M'
  {
    StartedRun();
    var r1 := STARTED + [TimerTick(false, true)];
    var r2 := r1 + [PressEsc(false)];
    var r3 := r2 + [Choose(false, Multi)];
    PlayNext(STARTED, TimerTick(false, true));
    PlayNext(r1, PressEsc(false));
    PlayNext(r2, Choose(false, Multi));
    Hears(After(r3), true, 2);
    PlayNext(r3, Deliver(true, 2));
  }

  /** So can lost bytes, without any ESC. */
  lemma LossCanDeadlock()
    ensures var run := [] + [Choose(false, Multi)] + [Lose(true, 0)] + [Choose(true, Multi)] + [Lose(false, 0)];
      && Possible(run)
      && Quiet(After(run)) && After(run).host.multi && After(run).client.multi
      && After(run).host == Node(true, Game, Waiting, true, false, NO_BYTE)
      && After(run).client == Node(false, Game, Waiting, true, false, NO_BYTE)
  {
    var r1 := [] + [Choose(false, Multi)];
    var r2 := r1 + [Lose(true, 0)];
    var r3 := r2 + [Choose(true, Multi)];
    PlayNext([], Choose(false, Multi));
    PlayNext(r1, Lose(true, 0));
    PlayNext(r2, Choose(true, Multi));
    PlayNext(r3, Lose(false, 0));
  }

  // ----- the end

  /** In the midst of a multiplayer game. */
  predicate InMatch(n: Node) {
    n.screen == Game && n.phase == Running && n.multi
  }

  /** The k-th action of the run ends a multiplayer game with a win. */
  ghost predicate WinsAt(run: seq<Action>, k: nat, atHost: bool) {
    && k < |run| && run[k] == TimerTick(atHost, true) && Possible(run[..k])
    && InMatch(At(After(run[..k]), atHost))
  }

  ghost predicate WonOnce(run: seq<Action>, atHost: bool) {
    exists k :: 0 <= k < |run| && WinsAt(run, k, atHost)
  }

  lemma {:induction false} WonOnceGrows(run: seq<Action>, a: Action, atHost: bool)
    requires Possible(run)
    ensures WonOnce(run, atHost) ==> WonOnce(run + [a], atHost)
    ensures a == TimerTick(atHost, true) && InMatch(At(After(run), atHost)) ==> WonOnce(run + [a], atHost)
  {
    var longer := run + [a];
    assert longer[..|run|] == run;
    if WonOnce(run, atHost) {
      var k :| 0 <= k < |run| && WinsAt(run, k, atHost);
      assert longer[..k] == run[..k];
      assert WinsAt(longer, k, atHost);
    }
    if WinsAt(longer, |run|, atHost) { assert WonOnce(longer, atHost); }
  }

  /** A loss, or the byte that tells of one, goes back to a win of the peer. */
  ghost predicate Blamed(n: Node, inbox: seq<char>, peerWon: bool) {
    'L' in inbox || n.last == 'L' || (n.phase == Finish && !n.won) ==> peerWon
  }

  lemma {:induction false} RespondBlamed(n: Node, inbox: seq<char>, a: Action, peerWon: bool)
    requires Blamed(n, inbox, peerWon) && Fits(inbox, a)
    ensures var e := Respond(n, inbox, a);
      && Blamed(e.node, inbox, peerWon)
      && ('L' in e.sent ==> a.TimerTick? && a.ended && InMatch(n))
  {
    if a.Deliver? && a.count > 0 { assert inbox[..a.count][0] == inbox[0] && inbox[0] in inbox; }
  }

  lemma {:induction false} InboxBlamed(n: Node, inbox: seq<char>, inbox': seq<char>, peerWon: bool, peerWon': bool)
    requires Blamed(n, inbox, peerWon) && (peerWon ==> peerWon')
    requires forall c :: c in inbox' ==> c in inbox || c != 'L' || peerWon'
    ensures Blamed(n, inbox', peerWon')
  {}

  lemma NobodyBlamed()
    ensures Blamed(INITIAL.host, INITIAL.toHost, WonOnce([], false))
    ensures Blamed(INITIAL.client, INITIAL.toClient, WonOnce([], true))
  {}

  lemma {:induction false} BlamedAlways(run: seq<Action>)
    requires Possible(run)
    ensures var w := After(run);
      Blamed(w.host, w.toHost, WonOnce(run, false)) && Blamed(w.client, w.toClient, WonOnce(run, true))
  {
    hide Possible, After, WonOnce, Blamed;
    if run == [] {
      AtFirst();
      NobodyBlamed();
    } else {
      var before, a := run[..|run| - 1], run[|run| - 1];
      LastAction(run);
      BlamedAlways(before);
      WonOnceGrows(before, a, true);
      WonOnceGrows(before, a, false);
      var w := After(before);
      BlamedNext(w, a, WonOnce(before, true), WonOnce(before, false), WonOnce(run, true), WonOnce(run, false));
    }
  }

  lemma {:induction false} BlamedNext(w: World, a: Action, hostWon: bool, clientWon: bool, hostWon': bool,
                                      clientWon': bool)
    requires Enabled(w, a) && (hostWon ==> hostWon') && (clientWon ==> clientWon')
    requires Blamed(w.host, w.toHost, clientWon) && Blamed(w.client, w.toClient, hostWon)
    requires a == TimerTick(true, true) && InMatch(w.host) ==> hostWon'
    requires a == TimerTick(false, true) && InMatch(w.client) ==> clientWon'
    ensures Blamed(Next(w, a).host, Next(w, a).toHost, clientWon')
    ensures Blamed(Next(w, a).client, Next(w, a).toClient, hostWon')
  {
    var n, inbox := At(w, a.atHost), Channel(w, a.atHost);
    var peerWon, peerWon' := if a.atHost then clientWon else hostWon, if a.atHost then clientWon' else hostWon';
    var ownWon, ownWon' := if a.atHost then hostWon else clientWon, if a.atHost then hostWon' else clientWon';
    var e := Respond(n, inbox, a);
    RespondBlamed(n, inbox, a, peerWon);
    LeftIsPart(n, inbox, a);
    InboxBlamed(e.node, inbox, Untaken(n, inbox, a), peerWon, peerWon');
    InboxBlamed(At(w, !a.atHost), Channel(w, !a.atHost), Channel(w, !a.atHost) + e.sent, ownWon, ownWon');
  }

  /** In every run, nobody loses unless the other has won a multiplayer game before. */
  lemma {:induction false} LossMeansPeerWon(run: seq<Action>, atHost: bool)
    requires Possible(run)
    requires At(After(run), atHost).phase == Finish && !At(After(run), atHost).won
    ensures WonOnce(run, !atHost)
  {
    BlamedAlways(run);
  }

  /** But both can win the same game, if the second reaches the end before the first one's message reaches it. */
  lemma BothCanWin()
    ensures var run := STARTED + [TimerTick(true, true)] + [TimerTick(false, true)] + [Deliver(true, 1)] +
                       [Deliver(false, 1)];
      && Possible(run)
      && var w := After(run);
         && w.host.multi && w.host.phase == Finish && w.host.won
         && w.client.multi && w.client.phase == Finish && w.client.won
  {
    StartedRun();
    var r1 := STARTED + [TimerTick(true, true)];
    var r2 := r1 + [TimerTick(false, true)];
    var r3 := r2 + [Deliver(true, 1)];
    PlayNext(STARTED, TimerTick(true, true));
    PlayNext(r1, TimerTick(false, true));
    PlayNext(r2, Deliver(true, 1));
    PlayNext(r3, Deliver(false, 1));
  }

  /** The end of a game is final, short of ESC, except for two cases: a host that hears the client's greeting, and a
      user who is in the menu by then and chooses single-player. */
  lemma {:induction false} FinishIsFinal(w: World, a: Action)
    requires Enabled(w, a) && !a.PressEsc? && At(w, a.atHost).phase == Finish
    ensures var n, inbox := At(w, a.atHost), Channel(w, a.atHost);
      At(Next(w, a), a.atHost).phase == Finish <==>
        && !(a.Deliver? && n.host && n.last != '\0' && Heard(n, inbox, a.count) == 'S')
        && !(a.Choose? && a.choice == Single)
  {
    if a.Deliver? {
      hide Interrupt;
      HeardDecides(At(w, a.atHost), Channel(w, a.atHost), a.count);
    }
  }

  /** The case happens: an interrupt that finds nothing sets a host that has just won running again. */
  lemma FinishedHostRestarts()
    ensures var run := STARTED + [TimerTick(true, true)] + [Deliver(true, 0)];
      && Possible(run)
      && After(run).host.phase == Running && After(run).host.won
  {
    StartedRun();
    PlayNext(STARTED, TimerTick(true, true));
    PlayNext(STARTED + [TimerTick(true, true)], Deliver(true, 0));
  }
}
