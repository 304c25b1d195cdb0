/** Two machines with a serial line between them: two sessions whose events interleave. */
module Matches {
  import opened Grids
  import opened Carving
  import ShortestPaths
  import opened Movement
  import opened Sessions
  import Protocol
  import Endings

  /** The mazes of the two machines; each generates its own. */
  datatype Grounds = Grounds(host: Grid, client: Grid)

  function MazeAt(mazes: Grounds, atHost: bool): Grid {
    if atHost then mazes.host else mazes.client
  }

  datatype Match = Match(host: Session, client: Session, toHost: seq<char>, toClient: seq<char>)

  /** Something happens at one machine, or a byte under way to it is lost. */
  datatype Happening = At(atHost: bool, event: Event) | Lost(atHost: bool, index: nat)

  function SessionAt(m: Match, atHost: bool): Session {
    if atHost then m.host else m.client
  }

  /** The match as the protocol sees it. */
  function View(m: Match): Protocol.World {
    Protocol.World(m.host.node, m.client.node, m.toHost, m.toClient)
  }

  /** Bytes that arrive have been sent. */
  predicate Possible(m: Match, x: Happening) {
    var channel := Protocol.Channel(View(m), x.atHost);
    match x
    case At(_, event) => event.Arrival? ==> event.batch <= channel
    case Lost(_, index) => index < |channel|
  }

  /** The machine reacts: it takes the bytes that have arrived, if it looks at the port, and sends its own. */
  function Next(mazes: Grounds, m: Match, x: Happening): Match
    requires Possible(m, x)
  {
    var s, channel := SessionAt(m, x.atHost), Protocol.Channel(View(m), x.atHost);
    match x
    case At(atHost, event) =>
      var o := React(MazeAt(mazes, atHost), s, event);
      var left := if event.Arrival? && s.node.last != '\0' then channel[|event.batch|..] else channel;
      if atHost then Match(o.session, m.client, left, m.toClient + o.sent)
      else Match(m.host, o.session, m.toHost + o.sent, left)
    case Lost(atHost, index) =>
      var left := channel[..index] + channel[index + 1..];
      if atHost then m.(toHost := left) else m.(toClient := left)
  }

  const KICKOFF := Match(Fresh(true), Fresh(false), [], [])

  function Play(mazes: Grounds, course: seq<Happening>): Option<Match> {
    if course == [] then Some(KICKOFF)
    else
      var before, x := Play(mazes, course[..|course| - 1]), course[|course| - 1];
      if before.Some? && Possible(before.value, x) then Some(Next(mazes, before.value, x)) else None
  }

  // ----- every course of a match is a run of the protocol

  /** What a happening is to the protocol, if it is anything. */
  function ActionAt(mazes: Grounds, m: Match, x: Happening): Option<Protocol.Action> {
    match x
    case At(atHost, event) => ActionOf(MazeAt(mazes, atHost), SessionAt(m, atHost), event)
    case Lost(atHost, index) => Some(Protocol.Lose(atHost, index))
  }

  function RunOf(mazes: Grounds, course: seq<Happening>): seq<Protocol.Action> {
    if course == [] || Play(mazes, course[..|course| - 1]).None? then []
    else
      var before := course[..|course| - 1];
      RunOf(mazes, before) +
      match ActionAt(mazes, Play(mazes, before).value, course[|course| - 1]) {
        case None => []
        case Some(a) => [a]
      }
  }

  predicate Roles(m: Match) {
    m.host.node.host && !m.client.node.host
  }

  lemma {:induction false} NextIsAction(mazes: Grounds, m: Match, x: Happening)
    requires Roles(m) && Possible(m, x)
    ensures Roles(Next(mazes, m, x))
    ensures match ActionAt(mazes, m, x) {
      case None => View(Next(mazes, m, x)) == View(m)
      case Some(a) => Protocol.Leads(View(m), a, View(Next(mazes, m, x)))
    }
  {
    var s, channel := SessionAt(m, x.atHost), Protocol.Channel(View(m), x.atHost);
    if x.At? {
      ReactionIsAction(MazeAt(mazes, x.atHost), s, x.event, channel);
      assert x.event.Arrival? ==> channel[..|x.event.batch|] == x.event.batch;
    }
    var other := Protocol.Channel(View(m), !x.atHost);
    assert other + [] == other;
  }

  lemma {:induction false} RunOfNext(mazes: Grounds, course: seq<Happening>)
    requires course != [] && Play(mazes, course[..|course| - 1]).Some?
    ensures var before := course[..|course| - 1];
      var a := ActionAt(mazes, Play(mazes, before).value, course[|course| - 1]);
      RunOf(mazes, course) == if a.None? then RunOf(mazes, before) else RunOf(mazes, before) + [a.value]
  {}

  /** However the events of the two machines interleave, the protocol sees one of its runs. */
  lemma {:induction false} CourseIsRun(mazes: Grounds, course: seq<Happening>)
    requires Play(mazes, course).Some?
    ensures var m := Play(mazes, course).value;
      && Roles(m)
      && Protocol.Possible(RunOf(mazes, course)) && Protocol.After(RunOf(mazes, course)) == View(m)
  {
    if course == [] {
      Protocol.AtFirst();
    } else {
      var before, x := course[..|course| - 1], course[|course| - 1];
      var m := Play(mazes, before).value;
      RunOfNext(mazes, course);
      hide Protocol.Possible, Protocol.After, Protocol.Leads, Next, ActionAt, RunOf, View;
      CourseIsRun(mazes, before);
      NextIsAction(mazes, m, x);
      var a := ActionAt(mazes, m, x);
      if a.Some? { Protocol.GoesOn(RunOf(mazes, before), a.value, View(Next(mazes, m, x))); }
    }
  }

  // ----- every machine's part is a session of its own

  /** What happened at one machine. */
  function EventsAt(course: seq<Happening>, atHost: bool): seq<Event> {
    if course == [] then []
    else
      var x := course[|course| - 1];
      EventsAt(course[..|course| - 1], atHost) + if x.At? && x.atHost == atHost then [x.event] else []
  }

  lemma {:induction false} PartIsSession(mazes: Grounds, course: seq<Happening>, atHost: bool)
    requires Play(mazes, course).Some?
    ensures SessionAt(Play(mazes, course).value, atHost) ==
            Sessions.After(MazeAt(mazes, atHost), atHost, EventsAt(course, atHost))
  {
    if course != [] {
      hide React;
      var before, x := course[..|course| - 1], course[|course| - 1];
      PartIsSession(mazes, before, atHost);
      var events := EventsAt(before, atHost);
      if x.At? && x.atHost == atHost {
        assert (events + [x.event])[..|events|] == events;
      } else {
        assert events + [] == events;
      }
    }
  }

  lemma {:induction false} EventsAreHappenings(course: seq<Happening>, atHost: bool)
    ensures forall e :: e in EventsAt(course, atHost) ==> At(atHost, e) in course
  {
    if course != [] { EventsAreHappenings(course[..|course| - 1], atHost); }
  }

  // ----- losses

  /** Each beginning of the run is the run of a beginning of the course. */
  lemma {:induction false} BeginningReached(mazes: Grounds, course: seq<Happening>, k: nat) returns (j: nat)
    requires Play(mazes, course).Some? && k <= |RunOf(mazes, course)|
    ensures j <= |course| && Play(mazes, course[..j]).Some?
    ensures RunOf(mazes, course[..j]) == RunOf(mazes, course)[..k]
  {
    if k == |RunOf(mazes, course)| {
      j := |course|;
      assert course[..j] == course && RunOf(mazes, course)[..k] == RunOf(mazes, course);
    } else {
      var before := course[..|course| - 1];
      j := BeginningReached(mazes, before, k);
      assert before[..j] == course[..j];
      assert RunOf(mazes, before)[..k] == RunOf(mazes, course)[..k];
    }
  }

  /** Where a machine shows a loss, the other one showed a win before. */
  lemma {:induction false} LossFollowsWin(mazes: Grounds, course: seq<Happening>, atHost: bool) returns (j: nat)
    requires Play(mazes, course).Some?
    requires var n := SessionAt(Play(mazes, course).value, atHost).node; n.phase == Protocol.Finish && !n.won
    ensures j <= |course| && Play(mazes, course[..j]).Some?
    ensures SessionAt(Play(mazes, course[..j]).value, !atHost).node.won
  {
    var run := RunOf(mazes, course);
    CourseIsRun(mazes, course);
    Endings.LossMeansPeerWon(run, atHost);
    var k: nat :| k < |run| && Endings.WinsAt(run, k, !atHost);
    WinShown(run, k, !atHost);
    j := BeginningReached(mazes, course, k + 1);
    CourseIsRun(mazes, course[..j]);
  }

  lemma {:induction false} WinShown(run: seq<Protocol.Action>, k: nat, atHost: bool)
    requires Endings.WinsAt(run, k, atHost)
    ensures Protocol.Possible(run[..k + 1]) && Protocol.At(Protocol.After(run[..k + 1]), atHost).won
  {
    assert run[..k + 1] == run[..k] + [run[k]];
    Protocol.PlayNext(run[..k], run[k]);
  }

  /** A machine shows a loss only if the other machine's player, at some time before and since pressing ESC last, had
      been in every cell of its own solution but (perhaps) the last two. */
  lemma {:induction false} LossesAreEarned(mazes: Grounds, course: seq<Happening>, atHost: bool, w: nat, h: nat,
                                           rand: nat -> nat, c: seq<Pos>)
    returns (j: nat)
    requires Play(mazes, course).Some?
    requires var n := SessionAt(Play(mazes, course).value, atHost).node; n.phase == Protocol.Finish && !n.won
    requires w > 0 && h > 0 && MazeAt(mazes, !atHost) == CarvedGrid(w, h, rand)
    requires ShortestPaths.Solves(CarvedGrid(w, h, rand), c)
    requires forall x :: x in course && x.At? && x.event.Key? ==> Real(x.event.press)
    ensures j <= |course|
    ensures var g := CarvedGrid(w, h, rand); var es := Presses(g, !atHost, EventsAt(course[..j], !atHost));
      (forall i :: 2 <= i < |c| ==> c[i] in Trail(g, es)) && Displacements(g, es) >= |c| - 3
  {
    hide ShortestPaths.Solves, CarvedGrid, Trail, Displacements, Presses, Sessions.After;
    j := LossFollowsWin(mazes, course, atHost);
    PartIsSession(mazes, course[..j], !atHost);
    var events := EventsAt(course[..j], !atHost);
    EventsAreHappenings(course[..j], !atHost);
    forall e | e in events && e.Key? ensures Real(e.press) {
      var x := At(!atHost, e);
      assert x in course[..j] && x in course && x.event == e;
    }
    WinsAreEarned(w, h, rand, !atHost, events, c);
  }
}
