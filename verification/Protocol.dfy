/** The two-machine game as a transition system: a host and a client, each with its screen and game state, and the
    bytes under way between them. */
module Protocol {
  import opened Grids

  datatype Screen = Menu | Game | HowTo

  datatype Phase = Waiting | Running | Finish

  /** What one machine keeps; `last` is the byte it processed last. */
  datatype Node = Node(host: bool, screen: Screen, phase: Phase, multi: bool, won: bool, last: char)

  /** A node after an event, and the bytes it sends. */
  datatype Effect = Effect(node: Node, sent: seq<char>)

  const NO_BYTE := 1 as char  // the value of the byte variable before anything has arrived

  function Greeting(n: Node): char {
    if n.host then 'M' else 'S'
  }

  function SinglePlayer(n: Node): Node {
    n.(screen := Game, multi := false, phase := Running)
  }

  function MultiPlayer(n: Node): Effect {
    Effect(n.(screen := Game, multi := true), [Greeting(n)])
  }

  function HowToPlay(n: Node): Node {
    n.(screen := HowTo)
  }

  function Reset(n: Node): Node {
    n.(multi := false, won := false, phase := Waiting)
  }

  function Escape(n: Node): Node {
    Reset(n).(screen := Menu)
  }

  function Activate(n: Node): Effect {
    Effect(n.(phase := Running), if n.multi then [Greeting(n)] else [])
  }

  function Process(n: Node, c: char): Effect {
    if c == 'M' && !n.host && n.phase == Waiting then Activate(n)
    else if c == 'S' && n.host then Activate(n)
    else if c == 'L' && n.phase == Running then Effect(n.(phase := Finish, won := false), [])
    else Effect(n, [])
  }

  /** A serial interrupt that finds `batch` at the port: only its first byte is looked at, the rest is dropped. With
      nothing at the port the last byte is processed again. */
  function Interrupt(n: Node, batch: seq<char>): Effect {
    if n.last == '\0' then Effect(n, [])
    else
      var c := if batch == [] then n.last else batch[0];
      Process(n.(last := c), c)
  }

  /** A timer tick; `ended` says whether the player stands at the end of the maze. */
  function Tick(n: Node, ended: bool): Effect {
    if n.screen == Game && n.phase == Running && ended then
      Effect(n.(phase := Finish, won := true), if n.multi then ['L'] else [])
    else Effect(n, [])
  }

  // ----- both machines

  datatype World = World(host: Node, client: Node, toHost: seq<char>, toClient: seq<char>)

  datatype Choice = Single | Multi | Help

  datatype Action =
    | Choose(atHost: bool, choice: Choice)
    | PressEsc(atHost: bool)
    | Deliver(atHost: bool, count: nat)
    | TimerTick(atHost: bool, ended: bool)
    | Lose(atHost: bool, index: nat)   // a byte under way to the node is lost

  const INITIAL := World(Node(true, Menu, Waiting, false, false, NO_BYTE),
                         Node(false, Menu, Waiting, false, false, NO_BYTE), [], [])

  function At(w: World, atHost: bool): Node {
    if atHost then w.host else w.client
  }

  /** The bytes under way to a node. */
  function Channel(w: World, atHost: bool): seq<char> {
    if atHost then w.toHost else w.toClient
  }

  /** The node leaves `left` in its channel, changes as e says and sends what e says. */
  function Apply(w: World, atHost: bool, left: seq<char>, e: Effect): World {
    if atHost then World(e.node, w.client, left, w.toClient + e.sent)
    else World(w.host, e.node, w.toHost + e.sent, left)
  }

  predicate Enabled(w: World, a: Action) {
    match a
    case Choose(atHost, _) => At(w, atHost).screen == Menu
    case PressEsc(_) => true
    case Deliver(atHost, count) => count <= |Channel(w, atHost)|
    case TimerTick(_, _) => true
    case Lose(atHost, index) => index < |Channel(w, atHost)|
  }

  /** What an action leaves of the bytes under way to the node. */
  function Untaken(n: Node, channel: seq<char>, a: Action): seq<char>
    requires Fits(channel, a)
  {
    if a.Deliver? && n.last != '\0' then channel[a.count..]
    else if a.Lose? then channel[..a.index] + channel[a.index + 1..]
    else channel
  }

  /** The channel has the bytes that the action takes. */
  predicate Fits(channel: seq<char>, a: Action) {
    (a.Deliver? ==> a.count <= |channel|) && (a.Lose? ==> a.index < |channel|)
  }

  function Respond(n: Node, channel: seq<char>, a: Action): Effect
    requires Fits(channel, a)
  {
    match a
    case Choose(_, Single) => Effect(SinglePlayer(n), [])
    case Choose(_, Multi) => MultiPlayer(n)
    case Choose(_, Help) => Effect(HowToPlay(n), [])
    case PressEsc(_) => Effect(Escape(n), [])
    case Deliver(_, count) => Interrupt(n, channel[..count])
    case TimerTick(_, ended) => Tick(n, ended)
    case Lose(_, _) => Effect(n, [])
  }

  function Next(w: World, a: Action): World
    requires Enabled(w, a)
  {
    var n, channel := At(w, a.atHost), Channel(w, a.atHost);
    Apply(w, a.atHost, Untaken(n, channel, a), Respond(n, channel, a))
  }

  /** What the users do to their machines: single-player starts at once and tells nobody, multiplayer greets the peer
      and leaves the game as it is, the instructions change the screen alone, and ESC sets everything back but the byte
      processed last. */
  lemma {:induction false} UserLaws(w: World, atHost: bool)
    ensures var n := At(w, atHost);
      && (n.screen == Menu ==>
            && Next(w, Choose(atHost, Single)) == With(w, atHost, Node(n.host, Game, Running, false, n.won, n.last), [])
            && Next(w, Choose(atHost, Multi)) ==
                 With(w, atHost, Node(n.host, Game, n.phase, true, n.won, n.last), if n.host then ['M'] else ['S'])
            && Next(w, Choose(atHost, Help)) ==
                 With(w, atHost, Node(n.host, HowTo, n.phase, n.multi, n.won, n.last), []))
      && Next(w, PressEsc(atHost)) == With(w, atHost, Node(n.host, Menu, Waiting, false, false, n.last), [])
  {
    assert w.toHost + [] == w.toHost && w.toClient + [] == w.toClient;
  }

  /** w with one node replaced and some bytes more under way to the other. */
  function With(w: World, atHost: bool, n: Node, sent: seq<char>): World {
    if atHost then w.(host := n, toClient := w.toClient + sent) else w.(client := n, toHost := w.toHost + sent)
  }

  /** What a tick does: on the game screen a running game whose player is at the end is over and won, and a multiplayer
      peer is told; otherwise nothing. */
  lemma {:induction false} TickLaws(w: World, atHost: bool)
    ensures var n := At(w, atHost);
      && Next(w, TimerTick(atHost, false)) == w
      && Next(w, TimerTick(atHost, true)) ==
           if n.screen == Game && n.phase == Running then
             With(w, atHost, Node(n.host, Game, Finish, n.multi, true, n.last), if n.multi then ['L'] else [])
           else w
  {
    assert w.toHost + [] == w.toHost && w.toClient + [] == w.toClient;
  }

  /** What a node does with a byte: a waiting client starts on "M", a host on "S", each telling a peer that it is in
      multiplayer with; a running game is lost on "L"; nothing else has any effect. */
  lemma {:induction false} ByteLaws(n: Node, c: char)
    requires n.last != '\0'
    ensures Interrupt(n, [c]) ==
      if (c == 'M' && !n.host && n.phase == Waiting) || (c == 'S' && n.host) then
        Effect(Node(n.host, n.screen, Running, n.multi, n.won, c),
               if !n.multi then [] else if n.host then ['M'] else ['S'])
      else if c == 'L' && n.phase == Running then Effect(Node(n.host, n.screen, Finish, n.multi, false, c), [])
      else Effect(Node(n.host, n.screen, n.phase, n.multi, n.won, c), [])
  {}

  /** Only the first byte of a batch counts; with none the last byte counts again. */
  lemma {:induction false} BatchLaws(n: Node, batch: seq<char>)
    requires n.last != '\0'
    ensures Interrupt(n, batch) == Interrupt(n, [if batch == [] then n.last else batch[0]])
  {}

  /** The world after a run from the initial state, if its actions can happen one after the other. */
  function Play(run: seq<Action>): Option<World> {
    if run == [] then Some(INITIAL)
    else
      var before, a := Play(run[..|run| - 1]), run[|run| - 1];
      if before.Some? && Enabled(before.value, a) then Some(Next(before.value, a)) else None
  }

  predicate Possible(run: seq<Action>) {
    Play(run).Some?
  }

  function After(run: seq<Action>): World
    requires Possible(run)
  {
    Play(run).value
  }

  ghost predicate Chose(run: seq<Action>, atHost: bool) {
    Choose(atHost, Multi) in run
  }

  lemma {:induction false} ChoseGrows(run: seq<Action>, a: Action, atHost: bool)
    ensures Chose(run + [a], atHost) <==> Chose(run, atHost) || a == Choose(atHost, Multi)
  {}

  lemma {:induction false} LeftIsPart(n: Node, channel: seq<char>, a: Action)
    requires Fits(channel, a)
    ensures forall c :: c in Untaken(n, channel, a) ==> c in channel
  {}

  /** The byte an interrupt looks at. */
  function Heard(n: Node, inbox: seq<char>, count: nat): char
    requires count <= |inbox|
  {
    if count == 0 then n.last else inbox[0]
  }

  lemma {:induction false} HeardDecides(n: Node, inbox: seq<char>, count: nat)
    requires count <= |inbox|
    ensures var c := Heard(n, inbox, count);
      Interrupt(n, inbox[..count]) == if n.last == '\0' then Effect(n, []) else Process(n.(last := c), c)
  {
    if count > 0 { assert inbox[..count][0] == inbox[0]; }
  }

  /** The last action of a run. */
  lemma {:induction false} LastAction(run: seq<Action>)
    requires run != []
    ensures var before, a := run[..|run| - 1], run[|run| - 1];
      && run == before + [a]
      && (Possible(run) ==> Possible(before) && Enabled(After(before), a) && After(run) == Next(After(before), a))
    ensures Chose(run, true) <==> Chose(run[..|run| - 1], true) || run[|run| - 1] == Choose(true, Multi)
    ensures Chose(run, false) <==> Chose(run[..|run| - 1], false) || run[|run| - 1] == Choose(false, Multi)
  {
    var before, a := run[..|run| - 1], run[|run| - 1];
    assert run == before + [a];
    ChoseGrows(before, a, true);
    ChoseGrows(before, a, false);
  }

  lemma AtFirst()
    ensures Possible([]) && After([]) == INITIAL && !Chose([], true) && !Chose([], false)
  {}

  // ----- mutual consent

  /** What the peer sends when it is in a multiplayer game. */
  function PeerGreeting(n: Node): char {
    if n.host then 'S' else 'M'
  }

  /** Seen from one node: its own and its peer's earlier choices account for its state and for its inbox. */
  ghost predicate Accounted(n: Node, inbox: seq<char>, ownChose: bool, peerChose: bool) {
    && (n.multi ==> ownChose)
    && (n.last == PeerGreeting(n) || PeerGreeting(n) in inbox ==> peerChose)
    && (n.phase != Waiting && (n.multi || n.screen != Game) ==> peerChose)
  }

  ghost predicate Consent(w: World, hostChose: bool, clientChose: bool) {
    && w.host.host && !w.client.host
    && Accounted(w.host, w.toHost, hostChose, clientChose)
    && Accounted(w.client, w.toClient, clientChose, hostChose)
  }

  lemma {:induction false} InterruptAccounted(n: Node, inbox: seq<char>, count: nat, own: bool, peer: bool)
    requires Accounted(n, inbox, own, peer) && count <= |inbox|
    ensures var e := Interrupt(n, inbox[..count]);
      && Accounted(e.node, inbox, own, peer) && e.node.host == n.host
      && (Greeting(n) in e.sent ==> own)
  {
    if count > 0 { assert inbox[..count][0] == inbox[0] && inbox[0] in inbox; }
  }

  lemma {:induction false} RespondAccounted(n: Node, inbox: seq<char>, a: Action, own: bool, peer: bool)
    requires Accounted(n, inbox, own, peer) && Fits(inbox, a)
    requires a.Choose? ==> n.screen == Menu
    ensures var e := Respond(n, inbox, a); var own' := own || a == Choose(a.atHost, Multi);
      && Accounted(e.node, inbox, own', peer) && e.node.host == n.host
      && (Greeting(n) in e.sent ==> own')
  {
    if a.Deliver? { InterruptAccounted(n, inbox, a.count, own, peer); }
  }

  lemma {:induction false} InboxAccounted(n: Node, inbox: seq<char>, inbox': seq<char>, own: bool, peer: bool)
    requires Accounted(n, inbox, own, peer)
    requires forall c :: c in inbox' ==> c in inbox || c != PeerGreeting(n) || peer
    ensures Accounted(n, inbox', own, peer)
  {}

  lemma {:induction false} ConsentKept(w: World, a: Action, hostChose: bool, clientChose: bool)
    requires Enabled(w, a) && Consent(w, hostChose, clientChose)
    ensures Consent(Next(w, a), hostChose || a == Choose(true, Multi), clientChose || a == Choose(false, Multi))
  {
    var n, inbox := At(w, a.atHost), Channel(w, a.atHost);
    var own, peer := if a.atHost then hostChose else clientChose, if a.atHost then clientChose else hostChose;
    var own' := own || a == Choose(a.atHost, Multi);
    RespondAccounted(n, inbox, a, own, peer);
    var e := Respond(n, inbox, a);
    LeftIsPart(n, inbox, a);
    InboxAccounted(e.node, inbox, Untaken(n, inbox, a), own', peer);
    InboxAccounted(At(w, !a.atHost), Channel(w, !a.atHost), Channel(w, !a.atHost) + e.sent, peer, own');
  }

  lemma NobodyChose()
    ensures Consent(INITIAL, false, false)
  {}

  lemma {:induction false} ConsentAlways(run: seq<Action>)
    requires Possible(run)
    ensures Consent(After(run), Chose(run, true), Chose(run, false))
  {
    hide Consent, Possible, After, Chose;
    if run == [] {
      AtFirst();
      NobodyChose();
    } else {
      var before, a := run[..|run| - 1], run[|run| - 1];
      LastAction(run);
      ConsentAlways(before);
      ConsentKept(After(before), a, Chose(before, true), Chose(before, false));
    }
  }

  /** In every run - with ESC, single-player games, stale and lost bytes - a node that is past waiting in a multiplayer
      game has a peer that chose multiplayer before. */
  lemma {:induction false} MutualConsent(run: seq<Action>, atHost: bool)
    requires Possible(run)
    requires At(After(run), atHost).multi && At(After(run), atHost).phase != Waiting
    ensures Chose(run, !atHost) && Chose(run, atHost)
  {
    ConsentAlways(run);
  }

  // ----- the handshake cannot get stuck

  predicate NoEsc(run: seq<Action>) {
    forall i :: 0 <= i < |run| ==> !run[i].PressEsc?
  }

  predicate Lossless(run: seq<Action>) {
    forall i :: 0 <= i < |run| ==> !run[i].Lose?
  }

  /** While ESC is not pressed and nothing is lost on the line: a node that waits for a peer that has chosen multiplayer
      has the peer's greeting at the head of its inbox, where no batch can drop it. */
  ghost predicate Expecting(n: Node, inbox: seq<char>, own: bool, peer: bool) {
    && (n.multi <==> own) && (own ==> n.screen == Game)
    && (!peer ==> inbox == [])
    && (peer && n.phase == Waiting ==> inbox != [] && inbox[0] == PeerGreeting(n))
  }

  /** Processing any byte: nobody falls back to waiting, and the peer's greeting ends a wait. */
  lemma ProcessProceeds(n: Node, c: char)
    ensures var e := Process(n, c);
      && e.node.host == n.host && e.node.multi == n.multi && e.node.screen == n.screen && e.node.last == n.last
      && (e.sent != [] ==> n.multi)
      && (n.phase != Waiting ==> e.node.phase != Waiting)
      && (c == PeerGreeting(n) && n.phase == Waiting ==> e.node.phase == Running)
  {}

  lemma {:induction false} InterruptExpecting(n: Node, inbox: seq<char>, count: nat, own: bool, peer: bool)
    requires Expecting(n, inbox, own, peer) && count <= |inbox|
    ensures var e := Interrupt(n, inbox[..count]);
      && Expecting(e.node, inbox[if n.last == '\0' then 0 else count..], own, peer) && e.node.host == n.host
      && (e.sent != [] ==> own)
  {
    assert inbox[0..] == inbox;
    if count == 0 {
      assert inbox[..count] == [];
      ProcessProceeds(n, n.last);
    } else if n.last != '\0' {
      assert inbox[..count][0] == inbox[0];
      ProcessProceeds(n.(last := inbox[0]), inbox[0]);
    }
  }

  lemma {:induction false} RespondExpecting(n: Node, inbox: seq<char>, a: Action, own: bool, peer: bool)
    requires Expecting(n, inbox, own, peer) && Fits(inbox, a) && !a.Lose?
    requires !a.PressEsc? && (a.Choose? ==> n.screen == Menu)
    ensures var e := Respond(n, inbox, a); var own' := own || a == Choose(a.atHost, Multi);
      && Expecting(e.node, Untaken(n, inbox, a), own', peer) && e.node.host == n.host
      && (e.sent != [] ==> own') && (own' && !own ==> e.sent == [Greeting(n)])
  {
    if a.Deliver? {
      InterruptExpecting(n, inbox, a.count, own, peer);
      assert inbox[0..] == inbox;
    }
  }

  /** What is sent to a node joins the end of its inbox. */
  lemma {:induction false} InboxExpecting(n: Node, inbox: seq<char>, sent: seq<char>, own: bool, peer: bool,
                                          peer': bool)
    requires Expecting(n, inbox, own, peer) && (sent != [] ==> peer') && (peer ==> peer')
    requires peer' && !peer ==> sent == [PeerGreeting(n)]
    ensures Expecting(n, inbox + sent, own, peer')
  {}

  ghost predicate BothExpecting(w: World, hostChose: bool, clientChose: bool) {
    && w.host.host && !w.client.host
    && Expecting(w.host, w.toHost, hostChose, clientChose)
    && Expecting(w.client, w.toClient, clientChose, hostChose)
  }

  lemma {:induction false} ExpectingKept(w: World, a: Action, hostChose: bool, clientChose: bool)
    requires Enabled(w, a) && BothExpecting(w, hostChose, clientChose) && !a.Lose?
    requires !a.PressEsc?
    ensures BothExpecting(Next(w, a), hostChose || a == Choose(true, Multi), clientChose || a == Choose(false, Multi))
  {
    var n, inbox := At(w, a.atHost), Channel(w, a.atHost);
    var own, peer := if a.atHost then hostChose else clientChose, if a.atHost then clientChose else hostChose;
    var own' := own || a == Choose(a.atHost, Multi);
    RespondExpecting(n, inbox, a, own, peer);
    InboxExpecting(At(w, !a.atHost), Channel(w, !a.atHost), Respond(n, inbox, a).sent, peer, own, own');
  }

  lemma NothingExpected()
    ensures BothExpecting(INITIAL, false, false)
  {}

  lemma {:induction false} PlainBefore(run: seq<Action>)
    requires run != [] && NoEsc(run) && Lossless(run)
    ensures NoEsc(run[..|run| - 1]) && Lossless(run[..|run| - 1])
    ensures !run[|run| - 1].Lose? && !run[|run| - 1].PressEsc?
  {}

  lemma {:induction false} ExpectingAlways(run: seq<Action>)
    requires Possible(run) && NoEsc(run) && Lossless(run)
    ensures BothExpecting(After(run), Chose(run, true), Chose(run, false))
  {
    hide NoEsc, Lossless, BothExpecting, Possible, After, Chose;
    if run == [] {
      AtFirst();
      NothingExpected();
    } else {
      var before, a := run[..|run| - 1], run[|run| - 1];
      LastAction(run);
      PlainBefore(run);
      ExpectingAlways(before);
      ExpectingKept(After(before), a, Chose(before, true), Chose(before, false));
    }
  }

  /** In every run without ESC on a line that loses nothing, even though interrupts drop all but the first byte they
      find: once both have chosen multiplayer and nothing is under way, nobody waits. */
  lemma {:induction false} NoDeadlock(run: seq<Action>)
    requires Possible(run) && NoEsc(run) && Lossless(run) && Chose(run, true) && Chose(run, false)
    requires After(run).toHost == [] && After(run).toClient == []
    ensures After(run).host.phase != Waiting && After(run).client.phase != Waiting
  {
    ExpectingAlways(run);
  }

  const STARTED: seq<Action> := BOTH_CHOSE + [Deliver(true, 1)] + [Deliver(false, 2)] + [Deliver(true, 1)] +
                                [Deliver(false, 1)]

  const BOTH_CHOSE: seq<Action> := [] + [Choose(true, Multi)] + [Choose(false, Multi)]

  const LEFT_WAITING: seq<Action> := STARTED + [PressEsc(true)] + [Choose(true, Multi)] + [Deliver(false, 1)]

  lemma {:induction false} PlayNext(run: seq<Action>, a: Action)
    requires Possible(run) && Enabled(After(run), a)
    ensures Possible(run + [a]) && After(run + [a]) == Next(After(run), a)
  {
    assert (run + [a])[..|run + [a]| - 1] == run;
  }

  /** Hearing a byte, or the last one again. */
  lemma {:induction false} Hears(w: World, atHost: bool, count: nat)
    requires count <= |Channel(w, atHost)| && At(w, atHost).last != '\0'
    ensures var n := At(w, atHost);
      var c := Heard(n, Channel(w, atHost), count);
      Next(w, Deliver(atHost, count)) == Apply(w, atHost, Channel(w, atHost)[count..], Process(n.(last := c), c))
  {
    HeardDecides(At(w, atHost), Channel(w, atHost), count);
  }

  predicate Leads(w: World, a: Action, w': World) {
    Enabled(w, a) && Next(w, a) == w'
  }

  /** A run goes on to the world w. */
  lemma {:induction false} GoesOn(run: seq<Action>, a: Action, w: World)
    requires Possible(run) && Leads(After(run), a, w)
    ensures Possible(run + [a]) && After(run + [a]) == w
  {
    PlayNext(run, a);
  }

  const WAITING := Node(true, Game, Waiting, true, false, NO_BYTE)
  const RUNNING := Node(true, Game, Running, true, false, 'S')
  const WAITING' := Node(false, Game, Waiting, true, false, NO_BYTE)
  const RUNNING' := Node(false, Game, Running, true, false, 'M')

  lemma FirstSteps()
    ensures Leads(INITIAL, Choose(true, Multi), World(WAITING, INITIAL.client, [], ['M']))
    ensures Leads(World(WAITING, INITIAL.client, [], ['M']), Choose(false, Multi),
                  World(WAITING, WAITING', ['S'], ['M']))
  {}

  lemma HostHears()
    ensures Leads(World(WAITING, WAITING', ['S'], ['M']), Deliver(true, 1), World(RUNNING, WAITING', [], ['M', 'M']))
    ensures Leads(World(RUNNING, RUNNING', ['S'], []), Deliver(true, 1), World(RUNNING, RUNNING', [], ['M']))
  {
    Hears(World(WAITING, WAITING', ['S'], ['M']), true, 1);
    Hears(World(RUNNING, RUNNING', ['S'], []), true, 1);
  }

  lemma ClientHears()
    ensures Leads(World(RUNNING, WAITING', [], ['M', 'M']), Deliver(false, 2), World(RUNNING, RUNNING', ['S'], []))
    ensures Leads(World(RUNNING, RUNNING', [], ['M']), Deliver(false, 1), World(RUNNING, RUNNING', [], []))
  {
    Hears(World(RUNNING, WAITING', [], ['M', 'M']), false, 2);
    Hears(World(RUNNING, RUNNING', [], ['M']), false, 1);
  }

  lemma StartedRun()
    ensures Possible(STARTED) && After(STARTED) == World(RUNNING, RUNNING', [], [])
  {
    hide Possible, After, Leads;
    var r3 := BOTH_CHOSE + [Deliver(true, 1)];
    var r4 := r3 + [Deliver(false, 2)];
    AtFirst();
    FirstSteps();
    HostHears();
    ClientHears();
    GoesOn([], Choose(true, Multi), World(WAITING, INITIAL.client, [], ['M']));
    GoesOn([] + [Choose(true, Multi)], Choose(false, Multi), World(WAITING, WAITING', ['S'], ['M']));
    GoesOn(BOTH_CHOSE, Deliver(true, 1), World(RUNNING, WAITING', [], ['M', 'M']));
    GoesOn(r3, Deliver(false, 2), World(RUNNING, RUNNING', ['S'], []));
    GoesOn(r4, Deliver(true, 1), World(RUNNING, RUNNING', [], ['M']));
    GoesOn(r4 + [Deliver(true, 1)], Deliver(false, 1), World(RUNNING, RUNNING', [], []));
  }

  /** With ESC that fails: when a host leaves a running game and chooses multiplayer again, a client that is still
      running takes no notice, and the host is left waiting with nothing under way. */
  lemma EscCanDeadlock()
    ensures Possible(LEFT_WAITING)
    ensures var w := After(LEFT_WAITING);
      && w.toHost == [] && w.toClient == [] && w.host.multi && w.client.multi
      && w.host.phase == Waiting && w.client.phase == Running && w.host.last == 'S'
  {
    hide Possible, After;
    StartedRun();
    var r1, r2 := STARTED + [PressEsc(true)], STARTED + [PressEsc(true)] + [Choose(true, Multi)];
    PlayNext(STARTED, PressEsc(true));
    PlayNext(r1, Choose(true, Multi));
    Hears(After(r2), false, 1);
    PlayNext(r2, Deliver(false, 1));
  }

  // ----- the exchange comes to rest

  function Weight(bytes: seq<char>): nat {
    if bytes == [] then 0 else (if bytes[0] == 'S' then 4 else 1) + Weight(bytes[1..])
  }

  lemma {:induction false} WeightOfSum(a: seq<char>, b: seq<char>)
    ensures Weight(a + b) == Weight(a) + Weight(b)
  {
    if a == [] {
      assert a + b == b;
    } else {
      assert (a + b)[1..] == a[1..] + b;
      WeightOfSum(a[1..], b);
    }
  }

  function Unrest(n: Node): nat {
    if n.phase == Running then 2 else if n.phase == Waiting && !n.host then 6 else 0
  }

  function Measure(w: World): nat {
    Unrest(w.host) + Unrest(w.client) + Weight(w.toHost) + Weight(w.toClient)
  }

  /** The roles are fixed, and the byte that would switch a node's serial port off is never about. */
  ghost predicate Alive(w: World) {
    && w.host.host && !w.client.host
    && w.host.last != '\0' && w.client.last != '\0'
    && '\0' !in w.toHost && '\0' !in w.toClient
  }

  /** A delivery of at least one new byte, a win, or a loss of a byte. */
  predicate Productive(w: World, a: Action) {
    && Enabled(w, a)
    && match a
       case Choose(_, _) => false
       case PressEsc(_) => false
       case Deliver(_, count) => count > 0
       case TimerTick(atHost, ended) => ended && At(w, atHost).screen == Game && At(w, atHost).phase == Running
       case Lose(_, _) => true
  }

  lemma {:induction false} AliveKept(w: World, a: Action)
    requires Alive(w) && Enabled(w, a)
    ensures Alive(Next(w, a))
  {
    var inbox := Channel(w, a.atHost);
    LeftIsPart(At(w, a.atHost), inbox, a);
    if a.Deliver? && a.count > 0 { assert inbox[..a.count][0] == inbox[0] && inbox[0] in inbox; }
  }

  lemma {:induction false} AliveAlways(run: seq<Action>)
    requires Possible(run)
    ensures Alive(After(run))
  {
    hide Possible, After;
    if run == [] {
      AtFirst();
    } else {
      LastAction(run);
      AliveAlways(run[..|run| - 1]);
      AliveKept(After(run[..|run| - 1]), run[|run| - 1]);
    }
  }

  /** What a productive action costs a node: its inbox gets lighter by more than its own unrest and what it sends. */
  lemma {:induction false} ResponseSettles(n: Node, inbox: seq<char>, a: Action)
    requires n.last != '\0' && '\0' !in inbox
    requires match a
      case Choose(_, _) => false
      case PressEsc(_) => false
      case Deliver(_, count) => 0 < count <= |inbox|
      case TimerTick(_, ended) => ended && n.screen == Game && n.phase == Running
      case Lose(_, index) => index < |inbox|
    ensures var e := Respond(n, inbox, a);
      Unrest(e.node) + Weight(e.sent) + Weight(Untaken(n, inbox, a)) < Unrest(n) + Weight(inbox)
  {
    if a.Deliver? {
      var batch := inbox[..a.count];
      assert inbox == batch + inbox[a.count..];
      WeightOfSum(batch, inbox[a.count..]);
      assert batch[0] == inbox[0];
      assert Weight(batch) >= Weight([batch[0]]) by {
        assert batch == [batch[0]] + batch[1..];
        WeightOfSum([batch[0]], batch[1..]);
      }
      assert Weight([Greeting(n)]) == if n.host then 1 else 4;
    } else if a.Lose? {
      var before, lost, behind := inbox[..a.index], [inbox[a.index]], inbox[a.index + 1..];
      assert inbox == before + (lost + behind);
      WeightOfSum(before, lost + behind);
      WeightOfSum(lost, behind);
      WeightOfSum(before, behind);
    }
  }

  /** Every delivery of new bytes, every win and every loss of a byte lowers the measure. */
  lemma {:induction false} ProductiveLowers(w: World, a: Action)
    requires Alive(w) && Productive(w, a)
    ensures Measure(Next(w, a)) < Measure(w)
  {
    var n, inbox := At(w, a.atHost), Channel(w, a.atHost);
    ResponseSettles(n, inbox, a);
    WeightOfSum(Channel(w, !a.atHost), Respond(n, inbox, a).sent);
  }

  /** The run goes on from w by productive actions only. */
  predicate ProductiveRun(w: World, actions: seq<Action>)
    decreases |actions|
  {
    actions == [] || (Productive(w, actions[0]) && ProductiveRun(Next(w, actions[0]), actions[1..]))
  }

  /** So between two things the users do, only so many deliveries, wins and losses can
      follow. */
  lemma {:induction false} Quiesces(run: seq<Action>, actions: seq<Action>)
    requires Possible(run) && ProductiveRun(After(run), actions)
    ensures |actions| <= Measure(After(run))
    decreases |actions|
  {
    if actions != [] {
      AliveAlways(run);
      ProductiveLowers(After(run), actions[0]);
      PlayNext(run, actions[0]);
      Quiesces(run + [actions[0]], actions[1..]);
    }
  }

  // ----- interrupts that find nothing

  function Idle(atHost: bool, n: nat): seq<Action> {
    if n == 0 then [] else Idle(atHost, n - 1) + [Deliver(atHost, 0)]
  }

  function Copies(c: char, n: nat): seq<char> {
    if n == 0 then [] else Copies(c, n - 1) + [c]
  }

  /** What a node sends on n interrupts that find nothing: a host in multiplayer that last saw the client's greeting
      answers every time; a client answers once, if that ends its wait. */
  function StaleAnswers(n: Node, times: nat): seq<char> {
    if !n.multi || n.last != PeerGreeting(n) then []
    else if n.host then Copies('M', times)
    else if n.phase == Waiting && times > 0 then ['S']
    else []
  }

  lemma StaleAnswersNext(n: Node, times: nat)
    requires n.last != '\0'
    ensures StaleAnswers(n, 0) == []
    ensures times > 0 ==>
      StaleAnswers(n, times) ==
      StaleAnswers(n, times - 1) + (if n.host || times == 1 then Interrupt(n, []).sent else [])
  {
    assert Copies('M', 1) == ['M'];
  }

  /** Exactly what follows from any state when a node's interrupts find nothing n times: bytes without end, and so no
      rest, if and only if the node is a host in multiplayer that last saw the client's greeting. */
  lemma {:induction false} StaleGreetings(run: seq<Action>, atHost: bool, n: nat)
    requires Possible(run)
    ensures Possible(run + Idle(atHost, n))
    ensures var w, w' := After(run), After(run + Idle(atHost, n));
      && At(w', !atHost) == At(w, !atHost) && Channel(w', atHost) == Channel(w, atHost)
      && Channel(w', !atHost) == Channel(w, !atHost) + StaleAnswers(At(w, atHost), n)
      && Rested(At(w, atHost), n, At(w', atHost))
  {
    hide Possible, After, Interrupt;
    var w := After(run);
    AliveAlways(run);
    StaleAnswersNext(At(w, atHost), n);
    if n == 0 {
      assert run + Idle(atHost, n) == run;
    } else {
      StaleGreetings(run, atHost, n - 1);
      var before := run + Idle(atHost, n - 1);
      IdleNext(before, atHost);
      assert run + Idle(atHost, n) == before + [Deliver(atHost, 0)];
      RestedNext(At(w, atHost), n - 1, At(After(before), atHost));
    }
  }

  /** What n interrupts that find nothing leave of a node. */
  predicate Rested(n: Node, times: nat, n': Node) {
    && n'.host == n.host && n'.multi == n.multi && n'.last == n.last && n'.screen == n.screen
    && (times == 0 ==> n' == n)
    && (times > 0 && n.last == PeerGreeting(n) ==> n'.phase != Waiting)
  }

  lemma RestedNext(n: Node, times: nat, n': Node)
    requires Rested(n, times, n') && n.last != '\0'
    ensures Rested(n, times + 1, Interrupt(n', []).node)
    ensures Interrupt(n', []).sent == if n.host || times == 0 then Interrupt(n, []).sent else []
  {}

  lemma {:induction false} IdleNext(run: seq<Action>, atHost: bool)
    requires Possible(run)
    ensures var n := At(After(run), atHost);
      && Possible(run + [Deliver(atHost, 0)])
      && After(run + [Deliver(atHost, 0)]) ==
           Apply(After(run), atHost, Channel(After(run), atHost), Interrupt(n, []))
  {
    AliveAlways(run);
    PlayNext(run, Deliver(atHost, 0));
  }

  /** In numbers, at the host: n more bytes, or none. */
  lemma {:induction false} StaleGreetingRepeats(run: seq<Action>, n: nat)
    requires Possible(run)
    ensures Possible(run + Idle(true, n))
    ensures var w, w' := After(run), After(run + Idle(true, n));
      && |w'.toClient| == |w.toClient| + (if w.host.multi && w.host.last == 'S' then n else 0)
      && w'.host.multi == w.host.multi && w'.host.last == w.host.last
  {
    hide Possible, After;
    AliveAlways(run);
    StaleGreetings(run, true, n);
    CopiesSize('M', n);
  }

  lemma {:induction false} CopiesSize(c: char, n: nat)
    ensures |Copies(c, n)| == n
  {
    if n > 0 { CopiesSize(c, n - 1); }
  }
}
