# LCOMaze, modelled and proved in Dafny

LCOMaze is a maze game for MINIX: it generates a random maze, lets a player walk through it by keyboard and mouse,
and lets two machines race each other over a serial line. This project models its logic and proves what the program
is for: that every generated maze is a perfect maze, that the solver finds the shortest way through it, that a player
cannot get through a wall or reach the end without walking the solution, but can always reach it, and that the
handshake between two machines does what it should, even though an interrupt drops all but the first byte it finds.

Code that changes things step by step is modelled by classes and methods over the heap (`Cell`, `Stack`,
`LinkedList`, `Queue`, `Port`, `Driver`, `Canvas`, `Machine`). Each method is tied to a function on values, and the
theorems are about those functions, over all sizes, all random choices and all runs.

| file | what it holds |
|---|---|
| `Grids.dfy`, `Trees.dfy` | the maze as a value; rooted trees, walks in them, uniqueness of simple paths |
| `Carving.dfy`, `Draws.dfy` | the generator as a state machine, its invariant, and what comes out; what the numbers drawn decide |
| `ShortestPaths.dfy`, `Overflow.dfy` | the solver as a state machine; distances, the answer, and exactly when an addition overflows |
| `Mazes.dfy` | generator and solver together |
| `Movement.dfy`, `Winning.dfy` | collision, moves, whole runs of key presses: what they cannot do, and what they can |
| `Protocol.dfy`, `Endings.dfy`, `Waits.dfy`, `Races.dfy` | the two machines and the bytes between them; how games start and end; when a wait can end; when both machines win |
| `Sessions.dfy`, `Playing.dfy`, `Matches.dfy` | one machine's whole session, protocol and player together; a game from click to win; and two machines with the line between them |
| `MazeCells.dfy`, `CellStack.dfy`, `CellList.dfy` | cells, stack and list on the heap |
| `Generator.dfy`, `Solver.dfy` | the two algorithms over the heap |
| `ByteQueue.dfy`, `Serial.dfy` | the ring buffer and the serial driver |
| `Canvases.dfy`, `Rendering.dfy` | the frame buffer, and the maze drawn into it |
| `Game.dfy` | the game's globals and the handlers of the main loop |

Modelling choices, and where the code and its documentation part:

- `rand()` is an arbitrary function from the number of the iteration to the number drawn.
- Positions are reals, and the cosine and sine of the player's direction are any two numbers in [-1, 1]; the
  conversion to `int` truncates towards zero. That is right for what no player can do. What a player can do is proved
  for a player that never turns - the direction starts at 0, where the keys move along the axes - and for one that turns
  exactly to each side. `Winning.UndoAll` for a player that did turn supposes that it can face each earlier direction
  again exactly.
- `dist` is a 32-bit `int`: one more than `INT_MAX` is `INT_MIN`. `Overflow.OverflowExactly` says for which mazes that
  happens; by `Mazes.CarvedNeverOverflows` none of them can be generated. C leaves such an addition undefined: what
  `ShortestPaths.LegalInv`, `ShortestPaths.LegalAnswer` and `Solver.GetSolution` say about runs after an overflow holds
  for compilers that let it wrap round.
- The documentation of `get_solution` allows for a NULL result (`src/game/maze.h`). The code has none: the list cannot
  run out before the goal is taken. On a maze whose goal is cut off it returns a list that does not begin at the start.
- `linked_list_remove` does not update `last`. `CellList.LinkedList.Remove` says exactly when that leaves `last`
  stale; in the solver it never happens, since the goal is pushed last and never removed.
- The documentation says that a maze is generated before each game. The code generates one when the program starts,
  and ESC leaves it as it is; so does the model.
- The serial line is a sequence of answers to port reads, chosen freely; a read that fails, and every read after the
  last answer, counts as a failed call. A send that would poll for ever is thus a send cut short, in every prefix.
  Writes are answered as well: one that fails puts nothing on the line, ends an interrupt, and goes unnoticed in a send.
- Between the two machines any byte under way may be lost. The theorems that need a line without loss say so.
- `maze_buffer` is not cleared when it is allocated. What is proved about white pixels is about buffers without white.
- A pixel takes one to four bytes of the buffer, the lowest bytes of its colour. The buffer has at most `INT_MAX` bytes,
  so that no place in it overflows the C code's 32-bit arithmetic (`Canvases.Canvas.PixelFits`).

## Model

| member | source | states |
|---|---|---|
| Carving.CarvedIsPerfect | src/game/maze.c:35-98 | For every size and all random choices: the two sides of each inner wall agree, the outer walls stand, exactly w·h − 1 passages are open, and exactly one simple path joins any two cells |
| Carving.CarvedVisitsAll | src/game/maze.c:39-98 | When the loop ends the stack is empty and every cell of the grid has been visited |
| Carving.DepthFirst | src/game/maze.c:39-87 | At every iteration the stack is a simple path from the start through removed walls, and every visited cell off the stack has no unvisited neighbour |
| Carving.LoopLength | src/game/maze.c:39-98 | The stack is empty exactly from iteration 2·w·h − 1 on, and never holds more than w·h cells |
| Carving.AdvanceInv | src/game/maze.c:40-87 | One iteration keeps the invariant (tree, stack as root path, finished cells) and lowers twice the unvisited cells plus the stack by one |
| Carving.EmptyStackVisitedAll | src/game/maze.c:39 | An empty stack means that no cell of the grid is unvisited |
| Carving.Choices | src/game/maze.c:44-62 | The candidates are exactly the sides with an unvisited neighbour, each once |
| Carving.CarvedSpans | src/game/maze.c:67-85 | The passages of a generated maze are exactly the parent links of the depth-first tree |
| Draws.DrawDecides | src/game/maze.c:44-87 | With m unvisited cells around the current one, the n-th number r takes the search to the one with r % m others before it in the order left, right, top, bottom, removes that wall alone, and stacks that cell; with none it takes the search back |
| Draws.EveryWayCanBeDrawn | src/game/maze.c:66 | At every iteration, every unvisited cell around the current one is taken for some next number, whatever was drawn before |
| Draws.EverySearchCanBeDrawn | src/game/maze.c:35-98 | Every maze that some depth-first search makes is the generated maze for some numbers drawn |
| Trees.SpannedIsPerfect | src/game/maze.c:67-85 | A grid whose passages form a tree has exactly one simple path between any two cells |
| Trees.DistanceIsDepth | src/game/maze.c:67-85 | In such a grid the distance of a cell from the start is its depth in the tree, and nothing else is |
| Trees.NoBlock | src/game/maze.c:67-85 | No four cells around a corner of a generated maze are joined all round |
| Generator.GenerateMaze | src/game/maze.c:13-105 | On the heap: the new cells' walls are those of the value-level result, for the screen's size divided by 100, after 2·w·h − 1 iterations |
| Generator.NewMaze | src/game/maze.c:18-33 | All cells are new, at their places, unvisited and behind four walls |
| Generator.Begin | src/game/maze.c:35-38 | The start alone is visited and on the stack |
| Generator.CarveAll | src/game/maze.c:39-98 | The loop ends after 2·w·h − 1 iterations, with the cells in the state that the value-level run reaches then |
| Generator.Iterate | src/game/maze.c:40-87 | One turn of the loop on cells and stack does what the value-level step says |
| Generator.UnvisitedNeighbours | src/game/maze.c:44-62 | The neighbours collected are the cells on the sides in Choices, in that order |
| Generator.RemoveWall | src/game/maze.c:67-83 | Exactly the two sides of the one wall between the cells fall |
| CellStack.Stack.Push | src/data_structures/stack.c:3-9 | The cell is added on top, the rest stays |
| CellStack.Stack.Pop | src/data_structures/stack.c:11-20 | The top cell comes off, or null when the stack is empty |
| CellList.LinkedList.Push | src/data_structures/linked_list.c:3-16 | The cell is appended and `last` is the end of the chain again |
| CellList.LinkedList.First | src/data_structures/linked_list.c:47-52 | The first cell, or null for the empty list |
| CellList.LinkedList.GetMinimumDistance | src/data_structures/linked_list.c:61-76 | The first of the cells with least dist, or null for the empty list |
| CellList.LinkedList.Contains | src/data_structures/linked_list.c:97-106 | Whether the cell is in the list |
| CellList.LinkedList.Remove | src/data_structures/linked_list.c:78-95 | The first occurrence is unlinked and the rest keeps its order; `last` stays current if and only if that does not take the end of a list of several |
| CellList.RemoveLastOfTwo | src/data_structures/linked_list.c:78-95 | Removing the last of two cells leaves `last` stale |
| ShortestPaths.LegalInv | src/game/maze.c:129-185 | After every legal run of the loop the invariant holds: pending cells once each with the goal last, pointers back through passages, and exact reckoning of distances as long as the goal can be reached |
| ShortestPaths.SettleInv | src/game/maze.c:148-184 | Settling the nearest cell keeps that invariant |
| ShortestPaths.ChainCountsDown | src/game/maze.c:140-143 | Along prev, dist falls by exactly one per hop, down to zero at the start |
| ShortestPaths.ReckonedIsDistance | src/game/maze.c:129-185 | The distance of the nearest pending cell and of every settled cell is final: the length of a shortest path |
| ShortestPaths.UnreachedMeansUnreachable | src/game/maze.c:130 | When the nearest pending cell has distance INT_MAX, no path leads to the goal |
| ShortestPaths.NearerIsSettled | src/game/maze.c:130-146 | When the goal comes up, every cell nearer than it has been settled with its right distance |
| ShortestPaths.AsFarIsRight | src/game/maze.c:130-146 | And every cell as far away as the goal, settled or not, has its right distance |
| ShortestPaths.LegalSettled | src/game/maze.c:129-146 | If the goal can be reached, every distance settled in a run is right when the goal is taken |
| ShortestPaths.LegalAnswer | src/game/maze.c:133-146 | At the end of every run: the list is a simple path from the goal back; it ends at the start if and only if the goal can be reached, and then no path is shorter |
| ShortestPaths.NoOverflow | src/game/maze.c:179 | If the goal can be reached, dist + 1 is below the number of cells and does not overflow |
| ShortestPaths.CutOffOverflows | src/game/maze.c:121-183 | A maze with the goal cut off on which the addition does overflow and tells the goal a distance of INT_MIN |
| Overflow.OverflowExactly | src/game/maze.c:121-184 | A whole run overflows if and only if the goal cannot be reached and a passage leads from a cell that cannot be reached to one on its right or below that cannot be reached |
| Overflow.ExactUntilOverflow | src/game/maze.c:129-185 | On every maze, the distances are exact in every state before an overflow |
| Solver.GetSolution | src/game/maze.c:115-189 | On the heap, for any walls: never null; the list holds the cells of the answer, prev links them, the distances of all cells no farther away than the goal are right, no wall changes |
| Solver.StartSearch | src/game/maze.c:116-127 | All cells are in the open list row by row, unreached and without pointer but for the start's distance of 0 |
| Solver.FindGoal | src/game/maze.c:129-185 | The loop ends by taking the goal, with cells and open list in the state of a legal run |
| Solver.StepSearch | src/game/maze.c:148-184 | Removing a cell and relaxing its neighbours on the heap does what Settle says, and `last` stays current |
| Solver.PickNearest | src/game/maze.c:130 | The cell taken is the first, row by row, of the nearest in the open list |
| Solver.PendingNeighbours | src/game/maze.c:150-174 | The neighbours collected are exactly those in the open list with no wall towards them |
| Solver.Relax | src/game/maze.c:177-184 | Exactly the given neighbours for which the way through the cell is shorter get the new dist and prev |
| Solver.Collect | src/game/maze.c:134-145 | The list follows prev from the goal to the cell without one |
| Mazes.SolvingWhatWasCarved | src/game/maze.c:39-188 | On a generated maze the solver's list is the way up the generator's tree, which is the only simple path between start and goal, and the distances of all cells no deeper than the goal are depths in the tree |
| Mazes.SettledIsDepth | src/game/maze.c:39-146 | In every run on a generated maze, every cell settled before the goal is taken has its depth in the tree for distance |
| Mazes.CarvedNeverOverflows | src/game/maze.c:129-184 | No run of the solver on a generated maze adds one to INT_MAX |
| MazeCells.Maze.GetCell | src/game/maze.c:231-237 | Null exactly outside the maze, otherwise the cell around the point |
| Movement.NoTunnelling | src/game/game.c:117-146 | Between two clear points at most ten pixels apart on each axis the centre stays in its cell or crosses one open passage |
| Movement.KeyLaws | src/game/game.c:32-56 | W moves ten pixels along the direction (y downwards), S against it, A and D as W a quarter turn to the left and right, unless the target collides; no other key moves |
| Movement.CollisionLaw | src/game/game.c:117-146 | A point collides if and only if it is within 25 pixels of the maze's edge or of a wall of its cell both of whose sides stand |
| Movement.TruncLaw | src/game/game.c:52 | Coordinates become integers by dropping the fraction |
| Movement.ClearReach | src/game/game.c:117-146 | A clear point keeps 25 pixels from the maze's edge, and reaches into a neighbouring cell only through an open passage |
| Movement.StaysClear | src/game/game.c:52-56 | After every run the player stands clear of walls |
| Movement.TrailIsWalk | src/game/game.c:28-60 | Over every run of key presses the centre's cells form a walk through open passages from the start |
| Movement.WonIsNear | src/game/game.c:148-150 | A clear position that ends the game is at most two passages from the goal |
| Movement.EndedExactly | src/game/game.c:148-150 | At a clear position the game is over if and only if the player's 25 pixels reach the goal's column to the right and the goal's row below |
| Winning.WinOutsideGoal | src/game/game.c:148-150 | In the maze of two cells three presses of W win, with the player still outside the goal's cell |
| Movement.NoShortcuts | src/game/game.c:52-56 | Every run that ends the game has been in each cell of the solution but perhaps the last two, and has moved at least dist − 2 times |
| Winning.LineIsClear | src/game/game.c:117-146 | Nothing collides on the straight line between the middles of two cells joined by a passage |
| Winning.WalkAlong | src/game/game.c:28-60 | Every path from the start can be walked with ten presses for each step, without turning, and also with W alone, facing each next cell |
| Winning.Winnable | src/game/game.c:148-150 | On every maze whose goal can be reached some run of presses wins in ten times the distance, without turning, and also with W alone |
| Winning.UndoAll | src/game/game.c:32-56 | From wherever a run of presses led, at most as many presses lead back to the start: the opposite keys, the last first, each facing as at some press of the run |
| Winning.NeverTrapped | src/game/game.c:28-60 | If the goal can be reached, no run of presses is a trap: some more presses win, as many as were made and ten for each step at most, facing as on the way or as at the start; without turning if the run never turned |
| Winning.CarvedIsWinnable | src/game/game.c:16-26 | On every generated maze some run of presses wins, without turning, and also with W alone |
| Sessions.WinsAreEarned | src/game/game.c:270-275 | Whatever else happens in a session, a machine shows a win only if since ESC its player has been in every cell of the solution but perhaps the last two |
| Sessions.PressesCount | src/proj.c:102-111 | The player stands where the presses since ESC lead, and a win shown goes back to a position on that way at which the end test held |
| Sessions.KeyEventLaws | src/proj.c:102-111 | Key 0x81 leads to the menu with game and player set back; on the game screen any other key goes to the player, whether the game waits, runs or is over; elsewhere none does anything |
| Playing.SinglePlayerCanWin | src/game/menu.c:89-93 | For every generated maze, on a machine just started: a click on single-player, some presses and a tick lead to a win shown |
| Playing.GameIsWon | src/game/game.c:265-276 | Any presses that get the player to the end after that click win at the next tick |
| Sessions.ReactionIsAction | src/proj.c:102-158 | Whatever event a machine handles, it acts on its part of the protocol as the action ActionOf names, or not at all |
| Matches.CourseIsRun | src/proj.c:94-163 | However the events of two machines and the losses on the line between them interleave, the protocol sees one of its runs |
| Matches.PartIsSession | src/proj.c:94-163 | And each machine goes through the session of its own events |
| Matches.LossFollowsWin | src/proj.c:151-156 | Where a machine shows a loss, the other one showed a win before |
| Matches.LossesAreEarned | src/proj.c:151-156 | A machine shows a loss only if the other machine's player, at some time before and since ESC, had been in every cell of its own solution but perhaps the last two |
| Protocol.MutualConsent | src/proj.c:141-158 | In every run, with ESC, single-player games, stale and lost bytes: a node in multiplayer that no longer waits has a peer that chose multiplayer before |
| Protocol.ConsentKept | src/game/menu.c:89-104 | Every action of either node keeps the account of who chose multiplayer |
| Protocol.UserLaws | src/game/menu.c:89-108 | What each click and ESC do to a machine and to the line: single-player runs at once and tells nobody, multiplayer greets, the instructions change the screen alone, ESC sets all but the last byte back |
| Protocol.TickLaws | src/game/game.c:265-276 | A tick ends and wins a running game on the game screen whose player is at the end, telling a multiplayer peer, and does nothing else |
| Protocol.ByteLaws | src/proj.c:141-156 | What "M", "S", "L" and other bytes do to a machine and what it answers |
| Protocol.BatchLaws | src/proj.c:141-157 | Only the first byte of a batch counts; with none the last byte counts again |
| Protocol.NoDeadlock | src/proj.c:141-158 | In every run without ESC on a line that loses nothing, when both chose multiplayer and nothing is under way, nobody waits |
| Protocol.ExpectingAlways | src/proj.c:141-158 | Without ESC and loss, a node that waits for a peer that chose multiplayer has the peer's greeting at the head of its inbox, where no batch drops it |
| Protocol.EscCanDeadlock | src/proj.c:104-107 | A run with ESC after which the host is left waiting for a client that is still running, with nothing under way |
| Endings.BatchCanDeadlock | src/proj.c:141-158 | A run in which a batch drops the greeting of a client that chose again, which is left waiting with nothing under way |
| Endings.LossCanDeadlock | src/controllers/serial.c:164-179 | A run without ESC in which both greetings are lost and both machines wait |
| Endings.WaitEndsExactly | src/proj.c:141-158 | Where bytes arrive one by one, in any order, until none is left: a node in multiplayer waits no longer if and only if it did not wait, or the peer's greeting was under way, or the peer was to answer one that was |
| Endings.ChoiceStartsGame | src/game/menu.c:95-104 | Where bytes arrive so: a waiting user who chooses multiplayer gets a game if and only if the peer's greeting is under way or the peer is in multiplayer and, in case it is the client, waits |
| Endings.ComesToRest | src/proj.c:141-158 | From every state there is such an order in which the bytes run out |
| Waits.StartsExactly | src/proj.c:141-158 | From any state, something other than the users - batches of any size, interrupts that find nothing, losses, wins - can end the wait of a node in multiplayer if and only if it can hear the peer's greeting (under way, or the byte it processed last), or the peer can hear its own and will answer |
| Waits.StuckForever | src/proj.c:141-158 | Otherwise it waits through everything that can happen until a user acts |
| Waits.CanStart | src/proj.c:141-158 | And if so, some deliveries of single bytes and empty interrupts end the wait |
| Waits.ChoiceCanStart | src/game/menu.c:95-104 | A waiting user who chooses multiplayer can get a game if and only if the peer's greeting can be heard, or the peer is in multiplayer and, in case it is the client, waits |
| Waits.SilentAfterEsc | src/game/game.c:190-198 | After ESC a machine sends nothing, whatever it hears, until its user acts |
| Waits.EscGetsStuck | src/proj.c:104-107 | A run with ESC, with one byte to each interrupt and nothing lost, after which the host is stuck until a user acts |
| Waits.LossGetsStuck | src/controllers/serial.c:164-179 | The run in which both greetings are lost leaves both machines stuck |
| Waits.LeftWaitingMayStart | src/game/game.c:190-198 | The runs of EscCanDeadlock and BatchCanDeadlock do not: ESC keeps the byte processed last, and an interrupt that finds nothing starts the game |
| Protocol.ProductiveLowers | src/proj.c:143-156 | Every delivery of new bytes, every win and every loss of a byte lowers the measure of what is under way and who is unsettled |
| Protocol.Quiesces | src/proj.c:143-157 | From any reachable state, no more such actions than the measure can follow before the users act again |
| Protocol.StaleGreetings | src/proj.c:141-158 | What exactly n interrupts that find no byte send from any state: n answers of a host in multiplayer that last saw "S", one of a client whose wait they end, nothing otherwise |
| Protocol.StaleGreetingRepeats | src/proj.c:141-150 | From any state the host sends n bytes on them if it is in multiplayer and last saw "S", and none otherwise; neither changes |
| Endings.LossMeansPeerWon | src/proj.c:151-156 | In every run, with lost bytes too, a node that has lost has a peer that won a multiplayer game before |
| Endings.BothCanWin | src/game/game.c:270-275 | A run after which both machines show a win of the same game |
| Races.BothWinExactly | src/game/game.c:270-275 | In every run without ESC and loss, both machines win if and only if one wins while "L" is in its inbox or after a batch has dropped one there |
| Races.BothWinOneByOne | src/proj.c:141-158 | Where interrupts find one byte at a time, if and only if one wins while "L" is in its inbox |
| Races.DropLetsBothWin | src/proj.c:141-158 | A run in which a batch drops the "L", and the second machine wins with nothing under way |
| Races.RaceAlways | src/game/game.c:270-275 | In every such run: a win of the host is in the client's inbox, or has ended its game, or was dropped; a win of the client is its last byte, or was the last thing the host heard and ended its game for good, or was dropped |
| Endings.FinishIsFinal | src/proj.c:141-156 | Short of ESC, a finished game stays finished if and only if it is not a host that hears "S" nor a user in the menu who chooses single-player |
| Endings.FinishedHostRestarts | src/proj.c:148-150 | A run in which a host that has just won is set running again by an interrupt that finds nothing |
| ByteQueue.WindowGrows | src/data_structures/queue.c:31-38 | A byte written one past the window, going round, extends what the queue holds and leaves the rest alone |
| ByteQueue.KeptIsFirstHundred | src/data_structures/queue.c:5-39 | A queue keeps the first hundred of the bytes pushed onto it |
| ByteQueue.Queue.constructor | src/data_structures/queue.c:7-22 | A new queue, with rear at −1, is empty |
| ByteQueue.Queue.Push | src/data_structures/queue.c:31-39 | The byte is appended, or 1 is reported and nothing changes when a hundred bytes are held |
| ByteQueue.Queue.Top | src/data_structures/queue.c:41-46 | The oldest byte, or NUL for the empty queue |
| ByteQueue.Queue.Pop | src/data_structures/queue.c:48-54 | The oldest byte comes off; nothing happens to the empty queue |
| Serial.SentInOrder | src/controllers/serial.c:155-182 | For any answers of the line: bytes are dealt with in order, those sent are an in-order subsequence of those dealt with, and the call succeeds exactly when none is left |
| Serial.AllSentIffAttended | src/controllers/serial.c:168-178 | A successful call has sent every byte if and only if no byte met ten status words in a row without the ready bit and no write failed |
| Serial.SteadyIsAttended | src/controllers/serial.c:164-177 | So it is whenever the transmitter, once ready, stays ready until something is written, and no write fails |
| Serial.SendCanLose | src/controllers/serial.c:169-178 | Answers for which sending succeeds and its byte is lost: a busy transmitter, and a failed write |
| Serial.SendLaw | src/controllers/serial.c:164-179 | After a ready line status the byte is written at the first of the next ten statuses with bit 5, and goes out if that write succeeds; if none of the ten has it, the byte is dropped |
| Serial.GatherReadsAll | src/controllers/serial.c:113-122 | The bytes read are those answered after each status with the data bit, up to the first status without it |
| Serial.Driver.SendInt | src/controllers/serial.c:146-183 | The bytes written, those left, the answers used up and the status are those of Send on the first hundred bytes |
| Serial.Driver.FillTransmit | src/controllers/serial.c:149-153 | A new transmit queue holds the first hundred bytes at most |
| Serial.Driver.OfferByte | src/controllers/serial.c:169-177 | The byte is written at the first ready status of ten at most, or given up; whether the write fails is not looked at |
| Serial.Driver.WriteQueued | src/controllers/serial.c:100-112 | The oldest bytes of the queue go out in order while the status has the ready bit and no call fails; a byte whose write failed stays |
| Serial.Driver.ReadAvailable | src/controllers/serial.c:113-122 | The bytes at the port join the receive queue as far as they fit |
| Serial.Driver.SerIh | src/controllers/serial.c:89-125 | In the port's answers and their bits: with data pending (bits 0 to 2 of the identification), one byte goes to the receive queue for each line status with bit 0, as far as it fits; with the transmitter pending, one queued byte goes out for each line status with bit 5; otherwise nothing moves; and those answers are used up |
| Serial.ReceiveLaw | src/controllers/serial.c:95-122 | A receive interrupt reads exactly the bytes between its line statuses with the data bit |
| Serial.TransmitLaw | src/controllers/serial.c:95-112 | A transmit interrupt writes one byte for each line status with the ready bit, until the queue is empty or the bit is clear |
| Serial.IdleLaw | src/controllers/serial.c:95-123 | An interrupt that is not pending, or neither for data nor for the transmitter, moves nothing |
| Serial.ReceiveStops | src/controllers/serial.c:114-121 | If a call fails in a receive interrupt, the bytes read before are kept, the last one too if the status after it cannot be read |
| Serial.TransmitStops | src/controllers/serial.c:101-111 | If a call fails in a transmit interrupt, exactly the bytes whose writes went well have left the queue |
| Serial.Driver.Receive | src/controllers/serial.c:136-144 | The first byte queued after the interrupt, or the caller's own when there is none |
| Serial.Driver.ClearReceiveQueue | src/controllers/serial.c:29-34 | The receive queue is empty |
| Game.CollidesOnCells | src/game/game.c:117-146 | The test on cell pointers and both cells' own walls is the collision test on the grid |
| Game.Machine.constructor | src/game/game.c:16-26 | A machine starts with a generated maze, in the menu, waiting, the player at (50, 50) |
| Game.Machine.CheckCollision | src/game/game.c:117-146 | The collision test of the grid that the cells show |
| Game.Machine.CheckGameEnd | src/game/game.c:148-150 | Whether the player is at most 25 pixels before the goal's cell, or beyond, on both axes |
| Game.Machine.GameKeyboardHandler | src/game/game.c:28-57 | The player moves to the target of the key pressed, unless that collides |
| Game.Machine.KeyboardInterrupt | src/proj.c:102-111 | ESC resets the game and leads to the menu; otherwise a key moves the player on the game screen |
| Game.Machine.GameReset | src/game/game.c:190-198 | Not multiplayer, not won, waiting, and the player at (50, 50) |
| Game.Machine.SinglePlayer | src/game/menu.c:89-93 | The machine does what a click on single-player means in a session |
| Game.Machine.MultiplePlayer | src/game/menu.c:95-104 | The same for multiplayer, with the greeting handed to the line |
| Game.Machine.HowTo | src/game/menu.c:106-108 | The same for the instructions |
| Game.Machine.TimerInterrupt | src/game/game.c:255-276 | A player at the end of a running game wins, and "L" goes to the line in multiplayer |
| Game.Machine.GameActivateMultiplayer | src/game/game.c:178-189 | The game runs, and the greeting goes to the line in multiplayer |
| Game.Machine.GameLose | src/game/game.c:251-254 | The game is finished and not won |
| Game.Machine.CanLose | src/game/game.c:302-304 | Whether the game is running |
| Game.Machine.CanEnterMultiplayer | src/game/game.c:305-307 | Whether the game is waiting |
| Game.Machine.Process | src/proj.c:143-156 | A byte does what the protocol says, and only "M" and "S" lead to a greeting |
| Game.Machine.SerialInterrupt | src/proj.c:141-158 | The first byte found, or else the byte before, decides as in the protocol; all others found are dropped |
| Canvases.IndexIsInjective | src/controllers/graphics.c:82-89 | No two points of the screen share a place in the buffer |
| Canvases.Canvas.PixelsApart | src/controllers/graphics.c:86-88 | The bytes of different pixels do not overlap |
| Canvases.Canvas.PixelFits | src/controllers/graphics.c:86-87 | The bytes of a pixel on the screen lie inside the buffer, and no step of their computation exceeds a 32-bit int |
| Canvases.Canvas.ShownInBuffer | src/controllers/graphics.c:86-88 | A pixel's bytes are at (width · y + x) · bytesPerPixel |
| Canvases.Canvas.constructor | src/game/maze.c:107-113 | A buffer with room for every pixel of the screen |
| Canvases.Canvas.DrawPixel | src/controllers/graphics.c:82-89 | Exactly the one pixel gets the lowest bytes of the colour; outside the screen nothing changes, and 1 is returned |
| Canvases.Canvas.DrawRectangle | src/controllers/graphics.c:91-100 | Exactly the points reached before the first one off the screen change; 0 means that the rectangle fits |
| Canvases.Canvas.ReachedExactly | src/controllers/graphics.c:92-98 | A point of the rectangle changes if and only if it and all points before it, column by column, are on the screen |
| Rendering.DrawMaze | src/game/maze.c:204-229 | The screen shows the standing walls in white, the start square in blue and the goal square in green, over what it showed |
| Rendering.DrawnPixels | src/game/maze.c:204-229 | Pixel by pixel: the goal's inner 86 by 86 pixels are green, else the start's blue, else standing wall lines white, else as before |
| Rendering.DrawWalls | src/game/maze.c:205-225 | Exactly the points on standing walls turn white |
| Rendering.DrawSolution | src/game/maze.c:191-202 | The loop along prev ends, and marks every cell of the way but the start |
| Rendering.MarkedPixels | src/game/maze.c:198 | Pixel by pixel: the inner 86 by 86 pixels of the cells marked are red |
| Rendering.AllLinesAreWalls | src/game/maze.c:206-225 | Drawn row by row, the lines cover exactly the points on standing walls |
| Rendering.WhiteIsWall | src/game/maze.c:204-229 | Over a picture without white, with two bytes or more to a pixel, a point is white if and only if it lies on a standing wall: the squares hide none |
| Rendering.OneByteIsWhite | src/game/maze.c:227 | With one byte to a pixel the start square is white too, except where it is the goal square, and nothing else |
| Rendering.SquareIsInside | src/game/maze.c:198-228 | No point of a start, goal or solution square lies on a wall |
| Rendering.WallsReadBack | src/game/maze.c:204-229 | Whether a wall stands can be read from the middle of its line, for every line on the screen |
| Rendering.MarksMissWalls | src/game/maze.c:196-199 | The marks of the solution touch no wall |

## Left out

- Protocol.NoDeadlock: for runs without ESC on a line without loss. Otherwise it is false, as EscGetsStuck and LossGetsStuck show; StartsExactly says from which states a wait can end.
- Protocol.Quiesces: counts deliveries of at least one new byte, wins and losses; StaleGreetings says exactly what interrupts that find nothing add.
- Races.BothWinExactly: for runs without ESC on a line without loss; "at most one winner" is not something the program provides.
- Endings.WaitEndsExactly: bytes arrive one at a time and every interrupt finds one; StartsExactly is about everything that can happen.
- Solver.GetSolution: for mazes of at most INT_MAX cells.
- Movement.Moved: positions are reals, so rounding of `double` is not modelled; nor are positions outside the range of `int`, which no clear position has.
- Allocation failure, freeing of memory and null queues.
- Setting up and shutting down devices (timer, keyboard, mouse, clock, video mode, interrupt subscriptions): calls into MINIX that cannot be seen.
- The mouse: cursor position, packets, turning the player, the buttons' areas on the menu, and leaving the program; a click is one event.
- Times and their display, sprites, rotation, text, the field of view and double buffering: no discrete property of interest.
- The list operations that neither solver nor drawing uses (`linked_list_pop_first`, `linked_list_pop_last`, `linked_list_last`) and `stack_top`.
