/** When a node's wait can still end without its user doing anything, and when it cannot. */
module Waits {
  import opened Protocol
  import opened Endings

  /** From w, without the users: bytes arrive in batches of any size, or interrupts find nothing, or bytes are lost, or
      the clocks tick. */
  predicate Unattended(w: World, schedule: seq<Action>)
    decreases |schedule|
  {
    schedule == [] ||
    var a := schedule[0];
    !a.Choose? && !a.PressEsc? && Enabled(w, a) && Unattended(Next(w, a), schedule[1..])
  }

  function Eventually(w: World, schedule: seq<Action>): World
    requires Unattended(w, schedule)
    decreases |schedule|
  {
    if schedule == [] then w else Eventually(Next(w, schedule[0]), schedule[1..])
  }

  /** The byte c is under way to the node, or is the one an interrupt that finds nothing makes it process again. */
  predicate CanHear(w: World, atHost: bool, c: char) {
    At(w, atHost).last == c || c in Channel(w, atHost)
  }

  /** The node waits no longer, or can hear the peer's greeting, or the peer can hear its own and will answer. */
  predicate MayStart(w: World, atHost: bool) {
    var n, peer := At(w, atHost), At(w, !atHost);
    || n.phase != Waiting
    || CanHear(w, atHost, PeerGreeting(n))
    || (WillAnswer(peer) && CanHear(w, !atHost, Greeting(n)))
  }

  // ----- without MayStart nothing helps

  lemma {:induction false} ActingKeepsStuck(w: World, atHost: bool, a: Action)
    requires Alive(w) && At(w, atHost).multi && !MayStart(w, atHost) && Enabled(w, a)
    requires !a.Choose? && !a.PressEsc?
    ensures At(Next(w, a), atHost).multi && !MayStart(Next(w, a), atHost)
  {
    var n, inbox := At(w, a.atHost), Channel(w, a.atHost);
    var e, other := Respond(n, inbox, a), Channel(w, !a.atHost);
    LeftIsPart(n, inbox, a);
    if a.Deliver? {
      HeardDecides(n, inbox, a.count);
      if a.count > 0 { assert inbox[0] in inbox; }
    }
    assert forall c :: c in other + e.sent <==> c in other || c in e.sent;
  }

  lemma {:induction false} StuckForever(w: World, atHost: bool, schedule: seq<Action>)
    requires Alive(w) && At(w, atHost).multi && !MayStart(w, atHost) && Unattended(w, schedule)
    ensures At(Eventually(w, schedule), atHost).phase == Waiting
    decreases |schedule|
  {
    if schedule != [] {
      ActingKeepsStuck(w, atHost, schedule[0]);
      AliveKept(w, schedule[0]);
      StuckForever(Next(w, schedule[0]), atHost, schedule[1..]);
    }
  }

  // ----- with MayStart something does

  predicate Starts(w: World, atHost: bool, schedule: seq<Action>) {
    Unattended(w, schedule) && At(Eventually(w, schedule), atHost).phase != Waiting
  }

  lemma {:induction false} StartsAfter(w: World, atHost: bool, a: Action, schedule: seq<Action>)
    requires Enabled(w, a) && !a.Choose? && !a.PressEsc? && Starts(Next(w, a), atHost, schedule)
    ensures Starts(w, atHost, [a] + schedule)
  {
    assert ([a] + schedule)[1..] == schedule;
  }

  /** The greeting is under way: delivered one by one, the bytes end the wait. */
  lemma {:induction false} HearGreeting(w: World, atHost: bool) returns (schedule: seq<Action>)
    requires Alive(w) && At(w, atHost).phase == Waiting && PeerGreeting(At(w, atHost)) in Channel(w, atHost)
    ensures Starts(w, atHost, schedule)
    decreases |Channel(w, atHost)|
  {
    var a, n, inbox := Deliver(atHost, 1), At(w, atHost), Channel(w, atHost);
    Hears(w, atHost, 1);
    AliveKept(w, a);
    ProcessProceeds(n.(last := inbox[0]), inbox[0]);
    schedule := [];
    if At(Next(w, a), atHost).phase == Waiting {
      assert inbox == [inbox[0]] + inbox[1..];
      schedule := HearGreeting(Next(w, a), atHost);
    }
    StartsAfter(w, atHost, a, schedule);
    schedule := [a] + schedule;
  }

  /** A peer that will answer hears the node's greeting. */
  lemma {:induction false} PeerHears(w: World, atHost: bool, count: nat)
    requires Alive(w) && WillAnswer(At(w, !atHost)) && count <= |Channel(w, !atHost)| && count <= 1
    requires At(w, atHost).phase == Waiting
    ensures var w' := Next(w, Deliver(!atHost, count));
      && At(w', atHost) == At(w, atHost) && Alive(w')
      && Channel(w', !atHost) == Channel(w, !atHost)[count..]
      && if Heard(At(w, !atHost), Channel(w, !atHost), count) == Greeting(At(w, atHost)) then
           PeerGreeting(At(w, atHost)) in Channel(w', atHost)
         else WillAnswer(At(w', !atHost))
  {
    Hears(w, !atHost, count);
    AliveKept(w, Deliver(!atHost, count));
    var peer := At(w, !atHost);
    var c := Heard(peer, Channel(w, !atHost), count);
    assert c == Greeting(At(w, atHost)) ==> Process(peer.(last := c), c).sent == [Greeting(peer)];
  }

  lemma {:induction false} AskPeer(w: World, atHost: bool) returns (schedule: seq<Action>)
    requires Alive(w) && At(w, atHost).phase == Waiting && WillAnswer(At(w, !atHost))
    requires Greeting(At(w, atHost)) in Channel(w, !atHost)
    ensures Starts(w, atHost, schedule)
    decreases |Channel(w, !atHost)|
  {
    var a, inbox := Deliver(!atHost, 1), Channel(w, !atHost);
    PeerHears(w, atHost, 1);
    if inbox[0] == Greeting(At(w, atHost)) {
      schedule := HearGreeting(Next(w, a), atHost);
    } else {
      assert inbox == [inbox[0]] + inbox[1..];
      schedule := AskPeer(Next(w, a), atHost);
    }
    StartsAfter(w, atHost, a, schedule);
    schedule := [a] + schedule;
  }

  lemma {:induction false} CanStart(w: World, atHost: bool) returns (schedule: seq<Action>)
    requires Alive(w) && MayStart(w, atHost)
    ensures Starts(w, atHost, schedule)
  {
    var n := At(w, atHost);
    if n.phase != Waiting {
      schedule := [];
    } else if PeerGreeting(n) in Channel(w, atHost) {
      schedule := HearGreeting(w, atHost);
    } else if n.last == PeerGreeting(n) {
      Hears(w, atHost, 0);
      ProcessProceeds(n, n.last);
      StartsAfter(w, atHost, Deliver(atHost, 0), []);
      schedule := [Deliver(atHost, 0)] + [];
    } else if Greeting(n) in Channel(w, !atHost) {
      schedule := AskPeer(w, atHost);
    } else {
      PeerHears(w, atHost, 0);
      var rest := HearGreeting(Next(w, Deliver(!atHost, 0)), atHost);
      StartsAfter(w, atHost, Deliver(!atHost, 0), rest);
      schedule := [Deliver(!atHost, 0)] + rest;
    }
  }

  /** From any state: something other than the users can end the wait of a node in multiplayer if and only if MayStart.
      Without it the node waits until a user does something. */
  lemma {:induction false} StartsExactly(w: World, atHost: bool)
    requires Alive(w) && At(w, atHost).multi
    ensures (exists schedule :: Starts(w, atHost, schedule)) <==> MayStart(w, atHost)
  {
    if MayStart(w, atHost) {
      var schedule := CanStart(w, atHost);
    }
    if schedule :| Starts(w, atHost, schedule) {
      if !MayStart(w, atHost) { StuckForever(w, atHost, schedule); }
    }
  }

  /** For a waiting user who chooses multiplayer: the game can start if and only if the peer's greeting can be heard, or
      the peer is in multiplayer and, if it is the client, waits too. */
  lemma {:induction false} ChoiceCanStart(w: World, atHost: bool)
    requires Alive(w) && At(w, atHost).screen == Menu && At(w, atHost).phase == Waiting
    ensures (exists schedule :: Starts(Next(w, Choose(atHost, Multi)), atHost, schedule)) <==>
            CanHear(w, atHost, PeerGreeting(At(w, atHost))) || WillAnswer(At(w, !atHost))
  {
    AliveKept(w, Choose(atHost, Multi));
    StartsExactly(Next(w, Choose(atHost, Multi)), atHost);
  }

  // ----- after ESC

  /** A node whose user has pressed ESC sends nothing, whatever it hears and however long the clocks tick, until the
      user does something. */
  lemma {:induction false} SilentAfterEsc(w: World, atHost: bool, schedule: seq<Action>)
    requires Unattended(Next(w, PressEsc(atHost)), schedule)
    ensures var w' := Eventually(Next(w, PressEsc(atHost)), schedule);
      |Channel(w', !atHost)| <= |Channel(w, !atHost)| && !At(w', atHost).multi
  {
    UserLaws(w, atHost);
    var w1 := Next(w, PressEsc(atHost));
    SilentInMenu(w1, atHost, schedule);
  }

  lemma {:induction false} SilentInMenu(w: World, atHost: bool, schedule: seq<Action>)
    requires At(w, atHost).screen == Menu && !At(w, atHost).multi && Unattended(w, schedule)
    ensures var w' := Eventually(w, schedule); |Channel(w', !atHost)| <= |Channel(w, !atHost)| && !At(w', atHost).multi
    decreases |schedule|
  {
    if schedule != [] {
      var a := schedule[0];
      ActsSilently(w, atHost, a);
      SilentInMenu(Next(w, a), atHost, schedule[1..]);
    }
  }

  lemma {:induction false} ActsSilently(w: World, atHost: bool, a: Action)
    requires At(w, atHost).screen == Menu && !At(w, atHost).multi
    requires Enabled(w, a) && !a.Choose? && !a.PressEsc?
    ensures var w' := Next(w, a);
      && At(w', atHost).screen == Menu && !At(w', atHost).multi
      && |Channel(w', !atHost)| <= |Channel(w, !atHost)|
  {
    if a.Deliver? { HeardDecides(At(w, a.atHost), Channel(w, a.atHost), a.count); }
  }

  // ----- the stuck runs looked at

  const BEATEN := Node(true, Game, Finish, true, false, 'L')
  const WINNER := Node(false, Game, Finish, true, true, 'M')
  const AGAIN := Node(true, Game, Waiting, true, false, 'L')

  lemma ClientWins()
    ensures Leads(World(RUNNING, RUNNING', [], []), TimerTick(false, true), World(RUNNING, WINNER, ['L'], []))
    ensures Leads(World(RUNNING, WINNER, ['L'], []), Deliver(true, 1), World(BEATEN, WINNER, [], []))
  {
    Hears(World(RUNNING, WINNER, ['L'], []), true, 1);
  }

  lemma HostTriesAgain()
    ensures Leads(World(BEATEN, WINNER, [], []), PressEsc(true), World(Reset(AGAIN).(screen := Menu), WINNER, [], []))
    ensures Leads(World(Reset(AGAIN).(screen := Menu), WINNER, [], []), Choose(true, Multi),
                  World(AGAIN, WINNER, [], ['M']))
    ensures Leads(World(AGAIN, WINNER, [], ['M']), Deliver(false, 1), World(AGAIN, WINNER, [], []))
  {
    Hears(World(AGAIN, WINNER, [], ['M']), false, 1);
  }

  /** With ESC a host does get stuck, though every interrupt finds one byte and nothing is lost: it hears that the
      client has won, its user leaves and chooses multiplayer again, and the client's game is over. */
  lemma EscGetsStuck()
    ensures var run := STARTED + [TimerTick(false, true)] + [Deliver(true, 1)] + [PressEsc(true)] +
                       [Choose(true, Multi)] + [Deliver(false, 1)];
      Possible(run) && After(run) == World(AGAIN, WINNER, [], []) && !MayStart(After(run), true)
  {
    hide Possible, After, Leads;
    StartedRun();
    var r1 := STARTED + [TimerTick(false, true)];
    var r2 := r1 + [Deliver(true, 1)];
    var r3 := r2 + [PressEsc(true)];
    var r4 := r3 + [Choose(true, Multi)];
    ClientWins();
    HostTriesAgain();
    GoesOn(STARTED, TimerTick(false, true), World(RUNNING, WINNER, ['L'], []));
    GoesOn(r1, Deliver(true, 1), World(BEATEN, WINNER, [], []));
    GoesOn(r2, PressEsc(true), World(Reset(AGAIN).(screen := Menu), WINNER, [], []));
    GoesOn(r3, Choose(true, Multi), World(AGAIN, WINNER, [], ['M']));
    GoesOn(r4, Deliver(false, 1), World(AGAIN, WINNER, [], []));
  }

  /** Loss gets both stuck without ESC. */
  lemma LossGetsStuck()
    ensures var run := [] + [Choose(false, Multi)] + [Lose(true, 0)] + [Choose(true, Multi)] + [Lose(false, 0)];
      && Possible(run)
      && After(run).host.multi && !MayStart(After(run), true)
      && After(run).client.multi && !MayStart(After(run), false)
  {
    LossCanDeadlock();
  }

  /** An interrupt that finds nothing ends the wait of a node that saw the peer's greeting before. */
  lemma {:induction false} IdleEndsWait(run: seq<Action>, atHost: bool)
    requires Possible(run)
    requires var n := At(After(run), atHost); n.phase == Waiting && n.last == PeerGreeting(n)
    ensures MayStart(After(run), atHost)
    ensures Possible(run + [Deliver(atHost, 0)])
    ensures At(After(run + [Deliver(atHost, 0)]), atHost).phase == Running
  {
    AliveAlways(run);
    Hears(After(run), atHost, 0);
    ProcessProceeds(At(After(run), atHost), At(After(run), atHost).last);
    PlayNext(run, Deliver(atHost, 0));
  }

  /** So the host left waiting after LEFT_WAITING and the client left waiting after DROPPED are not stuck for good: ESC
      does not clear the byte processed last, and theirs is the greeting from the game before. */
  lemma LeftWaitingMayStart()
    ensures Possible(LEFT_WAITING) && After(LEFT_WAITING).host.phase == Waiting && MayStart(After(LEFT_WAITING), true)
    ensures Possible(LEFT_WAITING + [Deliver(true, 0)])
    ensures After(LEFT_WAITING + [Deliver(true, 0)]).host.phase == Running
    ensures Possible(DROPPED) && After(DROPPED).client.phase == Waiting && MayStart(After(DROPPED), false)
    ensures Possible(DROPPED + [Deliver(false, 0)]) && After(DROPPED + [Deliver(false, 0)]).client.phase == Running
  {
    hide Possible, After, MayStart;
    EscCanDeadlock();
    BatchCanDeadlock();
    AliveAlways(LEFT_WAITING);
    AliveAlways(DROPPED);
    IdleEndsWait(LEFT_WAITING, true);
    IdleEndsWait(DROPPED, false);
  }
}
