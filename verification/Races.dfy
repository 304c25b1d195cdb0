/** When two machines both win: the news of one win - the byte "L" - has not been heard where the other win happens. */
module Races {
  import opened Protocol
  import opened Endings

  /** The j-th action is an interrupt that takes an "L" behind the byte it looks at. */
  ghost predicate DropsAt(run: seq<Action>, j: nat, atHost: bool) {
    && j < |run| && Possible(run[..j]) && Drops(After(run[..j]), run[j], atHost)
  }

  predicate Drops(w: World, a: Action, atHost: bool) {
    a.Deliver? && a.atHost == atHost && 0 < a.count <= |Channel(w, atHost)| && 'L' in Channel(w, atHost)[1..a.count]
  }

  ghost predicate Dropped(run: seq<Action>, atHost: bool) {
    exists j :: 0 <= j < |run| && DropsAt(run, j, atHost)
  }

  predicate Wins(w: World, a: Action, atHost: bool) {
    a == TimerTick(atHost, true) && InMatch(At(w, atHost))
  }

  lemma {:induction false} WonOnceNext(run: seq<Action>, a: Action, atHost: bool)
    requires Possible(run)
    ensures WonOnce(run + [a], atHost) <==> WonOnce(run, atHost) || Wins(After(run), a, atHost)
  {
    var longer := run + [a];
    WonOnceGrows(run, a, atHost);
    assert longer[..|run|] == run;
    if WonOnce(longer, atHost) {
      var k :| 0 <= k < |longer| && WinsAt(longer, k, atHost);
      if k < |run| {
        assert longer[..k] == run[..k];
        assert WinsAt(run, k, atHost);
      }
    }
  }

  lemma {:induction false} DroppedNext(run: seq<Action>, a: Action, atHost: bool)
    requires Possible(run)
    ensures Dropped(run + [a], atHost) <==> Dropped(run, atHost) || Drops(After(run), a, atHost)
  {
    hide Drops, Possible, After;
    var longer := run + [a];
    assert longer[..|run|] == run;
    forall j | 0 <= j < |run| ensures DropsAt(longer, j, atHost) <==> DropsAt(run, j, atHost) {
      assert longer[..j] == run[..j];
    }
    assert DropsAt(longer, |run|, atHost) <==> Drops(After(run), a, atHost);
  }

  /** Who has won, and whose interrupts have dropped an "L". */
  datatype Past = Past(hostWon: bool, clientWon: bool, hostDropped: bool, clientDropped: bool, hostChose: bool,
                       clientChose: bool)

  ghost function PastOf(run: seq<Action>): Past {
    Past(WonOnce(run, true), WonOnce(run, false), Dropped(run, true), Dropped(run, false), Chose(run, true),
         Chose(run, false))
  }

  function Later(w: World, a: Action, p: Past): Past {
    Past(p.hostWon || Wins(w, a, true), p.clientWon || Wins(w, a, false),
         p.hostDropped || Drops(w, a, true), p.clientDropped || Drops(w, a, false),
         p.hostChose || a == Choose(true, Multi), p.clientChose || a == Choose(false, Multi))
  }

  lemma {:induction false} PastNext(run: seq<Action>, a: Action)
    requires Possible(run)
    ensures PastOf(run + [a]) == Later(After(run), a, PastOf(run))
  {
    WonOnceNext(run, a, true);
    WonOnceNext(run, a, false);
    DroppedNext(run, a, true);
    DroppedNext(run, a, false);
    ChoseGrows(run, a, true);
    ChoseGrows(run, a, false);
  }

  predicate OnlyAtEnd(bytes: seq<char>) {
    forall i :: 0 <= i < |bytes| - 1 ==> bytes[i] != 'L'
  }

  /** The news of the host's win is under way to the client, or has ended the client's game, or was dropped. */
  predicate ClientLearns(w: World, p: Past) {
    p.hostWon ==> 'L' in w.toClient || w.client.phase == Finish || p.clientDropped
  }

  /** The client wins once. The news is the last byte it sends; when the host has heard it, its game is over for
      good. */
  predicate HostLearns(w: World, p: Past) {
    && OnlyAtEnd(w.toHost)
    && (p.clientWon ==>
          && w.client.phase == Finish
          && (|| p.hostDropped
              || (w.toHost != [] && w.toHost[|w.toHost| - 1] == 'L')
              || (w.toHost == [] && w.host.last == 'L' && w.host.phase == Finish)))
  }

  ghost predicate Race(w: World, p: Past) {
    && ClientLearns(w, p) && HostLearns(w, p)
    && (p.hostWon || p.clientWon ==> p.hostChose && p.clientChose)
  }

  /** What is known of any state of a run without ESC and loss. */
  ghost predicate Known(w: World, p: Past) {
    && BothExpecting(w, p.hostChose, p.clientChose)
    && Consent(w, p.hostChose, p.clientChose)
    && Alive(w)
    && Blamed(w.host, w.toHost, p.clientWon)
    && Blamed(w.client, w.toClient, p.hostWon)
  }

  lemma {:induction false} ChosenKept(w: World, a: Action, p: Past)
    requires Enabled(w, a) && Known(w, p) && (p.hostWon || p.clientWon ==> p.hostChose && p.clientChose)
    ensures var p' := Later(w, a, p); p'.hostWon || p'.clientWon ==> p'.hostChose && p'.clientChose
  {}

  lemma {:induction false} ClientLearnsKept(w: World, a: Action, p: Past)
    requires Enabled(w, a) && Known(w, p) && !a.Lose? && !a.PressEsc?
    requires ClientLearns(w, p) && (p.hostWon ==> p.hostChose && p.clientChose)
    ensures ClientLearns(Next(w, a), Later(w, a, p))
  {
    if a.atHost {
      assert forall c :: c in w.toClient ==> c in Next(w, a).toClient;
    } else if a.Deliver? {
      HeardDecides(w.client, w.toClient, a.count);
      if p.hostWon && 'L' in w.toClient && a.count > 0 {
        var i :| 0 <= i < |w.toClient| && w.toClient[i] == 'L';
        if i >= a.count {
          assert w.toClient[a.count..][i - a.count] == 'L';
        } else if i > 0 {
          assert w.toClient[1..a.count][i - 1] == 'L';
        }
      }
    }
  }

  lemma {:induction false} HostLearnsKept(w: World, a: Action, p: Past)
    requires Enabled(w, a) && Known(w, p) && !a.Lose? && !a.PressEsc?
    requires HostLearns(w, p) && (p.clientWon ==> p.hostChose && p.clientChose)
    ensures HostLearns(Next(w, a), Later(w, a, p))
  {
    if a.atHost && a.Deliver? {
      HeardDecides(w.host, w.toHost, a.count);
      if p.clientWon && a.count == |w.toHost| > 1 { assert w.toHost[1..a.count][a.count - 2] == w.toHost[a.count - 1]; }
    } else if !a.atHost && a.Deliver? {
      HeardDecides(w.client, w.toClient, a.count);
    }
  }

  lemma {:induction false} KnownAlways(run: seq<Action>)
    requires Possible(run) && NoEsc(run) && Lossless(run)
    ensures Known(After(run), PastOf(run))
  {
    ExpectingAlways(run);
    ConsentAlways(run);
    AliveAlways(run);
    BlamedAlways(run);
  }

  lemma NobodyWonYet()
    ensures Race(INITIAL, PastOf([]))
  {}

  lemma {:induction false} RaceAlways(run: seq<Action>)
    requires Possible(run) && NoEsc(run) && Lossless(run)
    ensures Race(After(run), PastOf(run))
  {
    hide Known, NoEsc, Lossless, ClientLearns, HostLearns, PastOf, Later;
    if run == [] {
      NobodyWonYet();
    } else {
      var before, a := run[..|run| - 1], run[|run| - 1];
      PlainBefore(run);
      RaceAlways(before);
      KnownAlways(before);
      assert run == before + [a];
      RaceNext(before, a);
    }
  }

  lemma {:induction false} RaceNext(run: seq<Action>, a: Action)
    requires Possible(run) && Enabled(After(run), a) && !a.Lose? && !a.PressEsc?
    requires Known(After(run), PastOf(run)) && Race(After(run), PastOf(run))
    ensures Possible(run + [a]) && Race(After(run + [a]), PastOf(run + [a]))
  {
    hide Known, ClientLearns, HostLearns, Possible, After, PastOf, Later;
    PlayNext(run, a);
    PastNext(run, a);
    ChosenKept(After(run), a, PastOf(run));
    ClientLearnsKept(After(run), a, PastOf(run));
    HostLearnsKept(After(run), a, PastOf(run));
  }

  /** A win that the node's peer has won before, with the news still in the node's inbox or dropped there. */
  ghost predicate UnawareWin(run: seq<Action>, k: nat, atHost: bool) {
    WinsAt(run, k, atHost) && ('L' in Channel(After(run[..k]), atHost) || Dropped(run[..k], atHost))
  }

  lemma {:induction false} WonBefore(run: seq<Action>, k: nat, atHost: bool)
    requires k <= |run| && WonOnce(run[..k], atHost)
    ensures WonOnce(run, atHost)
  {
    var i :| 0 <= i < k && WinsAt(run[..k], i, atHost);
    assert run[..k][..i] == run[..i];
    assert WinsAt(run, i, atHost);
  }

  /** Where an "L" is under way, its sender has won. */
  lemma {:induction false} NewsMeansWin(run: seq<Action>, atHost: bool)
    requires Possible(run) && ('L' in Channel(After(run), atHost) || Dropped(run, atHost))
    ensures WonOnce(run, !atHost)
  {
    if 'L' in Channel(After(run), atHost) {
      BlamedAlways(run);
    } else {
      var j :| 0 <= j < |run| && DropsAt(run, j, atHost);
      var inbox := Channel(After(run[..j]), atHost);
      assert forall c :: c in inbox[1..run[j].count] ==> c in inbox;
      BlamedAlways(run[..j]);
      WonBefore(run, j, !atHost);
    }
  }

  lemma NobodyWon()
    ensures !WonOnce([], true)
  {}

  lemma {:induction false} LastWinIsUnaware(run: seq<Action>, a: Action, atHost: bool)
    requires Possible(run) && NoEsc(run) && Lossless(run) && WonOnce(run, !atHost) && !WonOnce(run, atHost)
    requires WonOnce(run + [a], atHost)
    ensures UnawareWin(run + [a], |run|, atHost)
  {
    hide NoEsc, Lossless, WonOnce;
    assert (run + [a])[..|run|] == run;
    WonOnceNext(run, a, atHost);
    RaceAlways(run);
  }

  lemma {:induction false} BothWonMeansUnaware(run: seq<Action>) returns (k: nat, atHost: bool)
    requires Possible(run) && NoEsc(run) && Lossless(run) && WonOnce(run, true) && WonOnce(run, false)
    ensures k < |run| && UnawareWin(run, k, atHost)
  {
    hide NoEsc, Lossless, WonOnce;
    if run == [] { NobodyWon(); }
    var before, a := run[..|run| - 1], run[|run| - 1];
    assert run == before + [a];
    PlainBefore(run);
    WonOnceNext(before, a, true);
    WonOnceNext(before, a, false);
    if WonOnce(before, true) && WonOnce(before, false) {
      k, atHost := BothWonMeansUnaware(before);
      assert before[..k] == run[..k];
    } else {
      k, atHost := |before|, !WonOnce(before, true);
      LastWinIsUnaware(before, a, atHost);
    }
  }

  /** Exactly when both machines win, in every run without ESC on a line that loses nothing: some machine wins while the
      news of the other's win is in its inbox, or after a batch has dropped it there. */
  lemma {:induction false} BothWinExactly(run: seq<Action>)
    requires Possible(run) && NoEsc(run) && Lossless(run)
    ensures WonOnce(run, true) && WonOnce(run, false) <==>
            exists k, atHost :: 0 <= k < |run| && UnawareWin(run, k, atHost)
  {
    if WonOnce(run, true) && WonOnce(run, false) {
      var k, atHost := BothWonMeansUnaware(run);
    }
    if k, atHost :| 0 <= k < |run| && UnawareWin(run, k, atHost) {
      NewsMeansWin(run[..k], atHost);
      WonBefore(run, k, !atHost);
    }
  }

  predicate OneByOne(run: seq<Action>) {
    forall i :: 0 <= i < |run| ==> !(run[i].Deliver? && run[i].count > 1)
  }

  /** Where interrupts find one byte at a time nothing is dropped: only news still under way lets both win. */
  lemma {:induction false} BothWinOneByOne(run: seq<Action>)
    requires Possible(run) && NoEsc(run) && Lossless(run) && OneByOne(run)
    ensures WonOnce(run, true) && WonOnce(run, false) <==>
            exists k, atHost :: 0 <= k < |run| && WinsAt(run, k, atHost) && 'L' in Channel(After(run[..k]), atHost)
  {
    BothWinExactly(run);
    if k, atHost :| 0 <= k < |run| && UnawareWin(run, k, atHost) {
      NothingDropped(run, k, atHost);
    }
    if k, atHost :| 0 <= k < |run| && WinsAt(run, k, atHost) && 'L' in Channel(After(run[..k]), atHost) {
      assert UnawareWin(run, k, atHost);
    }
  }

  lemma {:induction false} NothingDropped(run: seq<Action>, k: nat, atHost: bool)
    requires OneByOne(run) && k <= |run|
    ensures !Dropped(run[..k], atHost)
  {
    forall j | 0 <= j < k ensures !DropsAt(run[..k], j, atHost) {
      assert run[..k][j] == run[j];
    }
  }

  /** A batch that drops the news adds races that both win with nothing under way: the host repeats its greeting, wins,
      and the client's interrupt finds both bytes at once. */
  lemma DropLetsBothWin()
    ensures var run := STARTED + [Deliver(true, 0)] + [TimerTick(true, true)] + [Deliver(false, 2)];
      && Possible(run)
      && Quiet(After(run)) && After(run).host.won && InMatch(After(run).client)
      && Possible(run + [TimerTick(false, true)]) && After(run + [TimerTick(false, true)]).client.won
  {
    StartedRun();
    var r1 := STARTED + [Deliver(true, 0)];
    var r2 := r1 + [TimerTick(true, true)];
    var r3 := r2 + [Deliver(false, 2)];
    PlayNext(STARTED, Deliver(true, 0));
    PlayNext(r1, TimerTick(true, true));
    assert After(r2).toClient[..2][0] == 'M';
    PlayNext(r2, Deliver(false, 2));
    PlayNext(r3, TimerTick(false, true));
  }
}
