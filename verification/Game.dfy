/** The game on one machine: its global variables, and the handlers that change them. */
module Game {
  import opened Grids
  import opened Carving
  import opened MazeCells
  import opened Generator
  import opened Serial
  import opened Movement
  import opened Sessions
  import Protocol

  /** The cells around two points, and the wall between them, are those of the snapshot. */
  lemma {:induction false} PointsInCells(maze: Maze, px: int, py: int, qx: int, qy: int, d: Dir)
    requires maze.Valid()
    ensures var g := maze.Snapshot();
      var c, n := maze.GetCell(px, py), maze.GetCell(qx, qy);
      && (CellAround(g, px, py).None? <==> c == null) && (CellAround(g, qx, qy).None? <==> n == null)
      && (c != null && n != null ==>
            (Walled(g, CellAround(g, px, py).value, CellAround(g, qx, qy).value, d) <==>
             n != c && n.Wall(Opposite(d)) && c.Wall(d)))
  {
    var c, n := maze.GetCell(px, py), maze.GetCell(qx, qy);
    if c != null && n != null {
      assert maze.At(Pos(c.x, c.y)) == c && maze.At(Pos(n.x, n.y)) == n;
    }
  }

  lemma {:induction false} InsideWithin(maze: Maze, px: int, py: int, size: nat)
    requires maze.Valid() && maze.GetCell(px - size, py) != null && maze.GetCell(px + size, py) != null
    ensures maze.GetCell(px, py) != null
  {}

  /** The collision test is on the cells' own walls. */
  lemma {:induction false} CollidesOnCells(maze: Maze, px: int, py: int, size: nat)
    requires maze.Valid()
    ensures var left, right := maze.GetCell(px - size, py), maze.GetCell(px + size, py);
      var top, bottom := maze.GetCell(px, py - size), maze.GetCell(px, py + size);
      var centre := maze.GetCell(px, py);
      Collides(maze.Snapshot(), px, py, size) <==>
        || left == null || right == null || top == null || bottom == null
        || (left != centre && left.rightWall && centre.leftWall)
        || (right != centre && right.leftWall && centre.rightWall)
        || (top != centre && top.bottomWall && centre.topWall)
        || (bottom != centre && bottom.topWall && centre.bottomWall)
  {
    hide CellAround, Walled;
    PointsInCells(maze, px, py, px - size, py, Left);
    PointsInCells(maze, px, py, px + size, py, Right);
    PointsInCells(maze, px, py, px, py - size, Top);
    PointsInCells(maze, px, py, px, py + size, Bottom);
    if maze.GetCell(px - size, py) != null && maze.GetCell(px + size, py) != null {
      InsideWithin(maze, px, py, size);
    }
  }

  class Machine {
    const host: bool
    const driver: Driver
    var maze: Maze
    var screen: Protocol.Screen
    var gameState: Protocol.Phase
    var isMultiplayer: bool
    var won: bool
    var c: char          // the byte received last
    var x: real
    var y: real

    ghost predicate Valid()
      reads this, driver, driver.transmit, driver.receive
    {
      maze.Valid() && driver.Valid()
    }

    /** As between two interrupts: nothing is left in the receive queue. */
    ghost predicate Idle()
      reads this, driver, driver.transmit, driver.receive, driver.receive.buf
    {
      Valid() && driver.receive.Contents() == []
    }

    ghost function Walls(): Grid
      requires maze.Valid()
      reads this`maze, maze.CellSet()
    {
      maze.Snapshot()
    }

    ghost function View(): Session
      reads this
    {
      Session(Protocol.Node(host, screen, gameState, isMultiplayer, won, c), Body(x, y))
    }

    constructor (host: bool, driver: Driver, xResolution: nat, yResolution: nat, rand: nat -> nat)
      requires xResolution >= CELL_SIZE && yResolution >= CELL_SIZE
      requires driver.Valid() && driver.receive.Contents() == []
      ensures Idle() && View() == Fresh(host) && this.host == host && this.driver == driver
      ensures maze.width == xResolution / CELL_SIZE && maze.height == yResolution / CELL_SIZE
      ensures Walls() == CarvedGrid(maze.width, maze.height, rand)
    {
      this.host, this.driver := host, driver;
      screen, gameState := Protocol.Menu, Protocol.Waiting;
      isMultiplayer, won := false, false;
      c := Protocol.NO_BYTE;
      x, y := 50.0, 50.0;
      var generated, _ := GenerateMaze(xResolution, yResolution, rand);
      maze := generated;
    }

    // ----- the player

    method CheckCollision(px: int, py: int, size: nat) returns (b: bool)
      requires maze.Valid()
      ensures b == Collides(Walls(), px, py, size)
    {
      hide Collides;
      CollidesOnCells(maze, px, py, size);
      var leftCell := maze.GetCell(px - size, py);
      var rightCell := maze.GetCell(px + size, py);
      var topCell := maze.GetCell(px, py - size);
      var bottomCell := maze.GetCell(px, py + size);
      var centerCell := maze.GetCell(px, py);
      if leftCell == null || rightCell == null || topCell == null || bottomCell == null { return true; }
      if leftCell != centerCell && leftCell.rightWall && centerCell.leftWall { return true; }
      if rightCell != centerCell && rightCell.leftWall && centerCell.rightWall { return true; }
      if topCell != centerCell && topCell.bottomWall && centerCell.topWall { return true; }
      if bottomCell != centerCell && bottomCell.topWall && centerCell.bottomWall { return true; }
      b := false;
    }

    method CheckGameEnd() returns (b: bool)
      requires maze.Valid()
      ensures b == Ended(Walls(), Body(x, y))
    {
      b := x >= ((maze.width - 1) * maze.cellSize - 25) as real &&
        y >= ((maze.height - 1) * maze.cellSize - 25) as real;
    }

    method GameKeyboardHandler(press: Press)
      requires maze.Valid()
      modifies this`x, this`y
      ensures Body(x, y) == Moved(Walls(), old(Body(x, y)), press)
    {
      hide Collides, Trunc;
      var xChanger, yChanger := 0.0, 0.0;
      if press.key == 0x11 {
        xChanger, yChanger := press.cos, press.sin;
      } else if press.key == 0x1f {
        xChanger, yChanger := -press.cos, -press.sin;
      } else if press.key == 0x1e {
        xChanger, yChanger := -press.sin, press.cos;
      } else if press.key == 0x20 {
        xChanger, yChanger := press.sin, -press.cos;
      }
      var collision := CheckCollision(Trunc(x + xChanger * 10.0), Trunc(y - yChanger * 10.0), 25);
      if !collision {
        x := x + xChanger * 10.0;
        y := y - yChanger * 10.0;
      }
    }

    method GameReset()
      modifies this`isMultiplayer, this`won, this`gameState, this`x, this`y
      ensures View() == Session(Protocol.Reset(old(View()).node), START)
    {
      isMultiplayer := false;
      won := false;
      gameState := Protocol.Waiting;
      x, y := 50.0, 50.0;
    }

    /** The keyboard's part of the main loop. */
    method KeyboardInterrupt(press: Press)
      requires maze.Valid()
      modifies this`screen, this`isMultiplayer, this`won, this`gameState, this`x, this`y
      ensures View() == React(Walls(), old(View()), Key(press)).session
    {
      if press.key == 0x81 {
        GameReset();
        screen := Protocol.Menu;
      }
      if screen == Protocol.Game {
        GameKeyboardHandler(press);
      }
    }

    // ----- the menu

    /** What the handlers that send promise: the machine changes as o says, and of the bytes to send goes out what the
        line lets through. */
    twostate predicate Done(o: Outcome)
      reads this, driver, driver.port
    {
      && View() == o.session
      && driver.port.sent == old(driver.port.sent) + Send(o.sent, old(driver.port.replies)).sent
      && driver.port.replies == Send(o.sent, old(driver.port.replies)).rest
    }

    method SendGreeting()
      requires Valid()
      modifies driver`transmit, driver.port
      ensures Valid()
      ensures var s := Send([Protocol.Greeting(View().node)], old(driver.port.replies));
        driver.port.sent == old(driver.port.sent) + s.sent && driver.port.replies == s.rest
    {
      var _ := driver.SendInt(if host then ['M'] else ['S']);
    }

    method SinglePlayer()
      requires Valid() && screen == Protocol.Menu
      modifies this`screen, this`isMultiplayer, this`gameState
      ensures Valid() && Done(React(Walls(), old(View()), Click(Protocol.Single)))
    {
      screen := Protocol.Game;
      isMultiplayer := false;
      gameState := Protocol.Running;
    }

    method MultiplePlayer()
      requires Valid() && screen == Protocol.Menu
      modifies this`screen, this`isMultiplayer, driver`transmit, driver.port
      ensures Valid() && Done(React(Walls(), old(View()), Click(Protocol.Multi)))
    {
      screen := Protocol.Game;
      isMultiplayer := true;
      SendGreeting();
    }

    method HowTo()
      requires Valid() && screen == Protocol.Menu
      modifies this`screen
      ensures Valid() && Done(React(Walls(), old(View()), Click(Protocol.Help)))
    {
      screen := Protocol.HowTo;
    }

    // ----- the timer

    /** The timer's part of the main loop, apart from drawing. */
    method TimerInterrupt()
      requires Valid()
      modifies this`gameState, this`won, driver`transmit, driver.port
      ensures Valid() && Done(React(Walls(), old(View()), Tick))
    {
      if screen == Protocol.Game && gameState == Protocol.Running {
        var ended := CheckGameEnd();
        if ended {
          gameState := Protocol.Finish;
          won := true;
          if isMultiplayer {
            var _ := driver.SendInt(['L']);
          }
        }
      }
    }

    // ----- the serial port

    method GameActivateMultiplayer()
      requires Valid()
      modifies this`gameState, driver`transmit, driver.port
      ensures Valid() && Done(OnNode(old(View()), Protocol.Activate(old(View().node))))
    {
      gameState := Protocol.Running;
      if isMultiplayer { SendGreeting(); }
    }

    method GameLose()
      modifies this`gameState, this`won
      ensures View() == old(View()).(node := old(View()).node.(phase := Protocol.Finish, won := false))
    {
      gameState := Protocol.Finish;
      won := false;
    }

    method CanLose() returns (b: bool)
      ensures b <==> gameState == Protocol.Running
    {
      b := gameState == Protocol.Running;
    }

    method CanEnterMultiplayer() returns (b: bool)
      ensures b <==> gameState == Protocol.Waiting
    {
      b := gameState == Protocol.Waiting;
    }

    /** What a received byte does. */
    method Process()
      requires Valid()
      modifies this`gameState, this`won, driver`transmit, driver.port
      ensures Valid() && Done(OnNode(old(View()), Protocol.Process(old(View().node), c)))
    {
      if c == 'M' && !host {
        var can := CanEnterMultiplayer();
        if can { GameActivateMultiplayer(); }
      }
      if c == 'S' && host {
        GameActivateMultiplayer();
      }
      if c == 'L' {
        var can := CanLose();
        if can { GameLose(); }
      }
    }

    /** The serial port's part of the main loop: the port's bytes all leave the receive queue, and the first of them -
        or, if there are none, the byte before - decides what happens. */
    method SerialInterrupt()
      requires Idle()
      modifies this`c, this`gameState, this`won, driver`transmit, driver.transmit`front, driver.transmit`size,
        driver.receive, driver.receive.buf, driver.port
      ensures Idle()
      ensures var unsent := old(driver.transmit.Contents()); var h := Handle(|unsent|, old(driver.port.replies));
        if old(c) == '\0' then
          View() == old(View()) && driver.port.replies == old(driver.port.replies) &&
          driver.port.sent == old(driver.port.sent)
        else
          var o := React(Walls(), old(View()), Arrival(h.batch));
          && View() == o.session
          && driver.port.sent == old(driver.port.sent) + unsent[..h.written] + Send(o.sent, h.rest).sent
          && driver.port.replies == Send(o.sent, h.rest).rest
    {
      if c != '\0' {
        hide Handle, Send, Protocol.Process;
        c := driver.Receive(c);
        Process();
        driver.ClearReceiveQueue();
      }
    }
  }
}
