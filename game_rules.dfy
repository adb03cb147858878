/** The movement rules of the snake engine (src/game.ts) as values: the four
    directions and their blocked opposites, one movement step, a turn request,
    the draining of the input queue, the border walls and the search for a
    start position. The class in SnakeGame performs these in place and is
    proved equal to them. */
module GameRules {
  import opened Numeric
  import opened Wrappers
  import opened Fields
  import E = Elements

  // The engine's own tag table (it does not use Elements).
  const Empty: byte := 0x00
  const SnakeBody: byte := 0x20
  const SnakeHead: byte := 0x40
  const Fruit: byte := 0x80
  const Wall: byte := 0xd0

  const SnakeStartLength: int := 5

  /** The engine's five tags are pairwise distinct and agree with the shared
      table, whereas the field's own table stores walls as 0xc0, a byte no
      element of the shared table has. */
  lemma TagTables()
    ensures |{Empty, SnakeBody, SnakeHead, Fruit, Wall}| == 5
    ensures Empty == E.Value(E.Space) && SnakeBody == E.Value(E.SnakeBody)
    ensures SnakeHead == E.Value(E.SnakeHead) && Fruit == E.Value(E.Fruit)
    ensures Wall == E.Value(E.Wall)
    ensures Field.Wall != Wall && forall e: E.GameElement :: E.Value(e) != Field.Wall
  {
  }

  datatype DirectionName = Left | Right | Up | Down

  /** Unit vector of each direction; y grows downwards. */
  function DX(d: DirectionName): int {
    match d
    case Left => -1
    case Right => 1
    case _ => 0
  }

  function DY(d: DirectionName): int {
    match d
    case Up => -1
    case Down => 1
    case _ => 0
  }

  /** The directions a snake heading in d may not turn to. */
  function Blocked(d: DirectionName): seq<DirectionName> {
    match d
    case Left => [Right]
    case Right => [Left]
    case Up => [Down]
    case Down => [Up]
  }

  /** The geometric reverse, defined from the vectors alone. */
  predicate Reverses(a: DirectionName, b: DirectionName) {
    DX(b) == -DX(a) && DY(b) == -DY(a)
  }

  /** Each direction blocks exactly its geometric reverse: going straight and
      turning by 90 degrees are never blocked, doubling back always is. */
  lemma BlockedIsReverse(a: DirectionName, b: DirectionName)
    ensures b in Blocked(a) <==> Reverses(a, b)
    ensures |Blocked(a)| == 1
  {
  }

  datatype Coord = Coord(x: int, y: int)

  predicate Inside(c: Coord) {
    InBounds(c.x, c.y)
  }

  predicate OnBorder(x: int, y: int) {
    x == 0 || y == 0 || x == Width - 1 || y == Height - 1
  }

  predicate Interior(c: Coord) {
    Inside(c) && !OnBorder(c.x, c.y)
  }

  /** Direction.incrementCoord applied to a copy of c (every coordinate the
      engine moves is a fresh copy, so nothing else observes the update). */
  function Move(c: Coord, d: DirectionName): Coord {
    Coord(c.x + DX(d), c.y + DY(d))
  }

  function Idx(c: Coord): int
    requires Inside(c)
  {
    Index(c.x, c.y)
  }

  function Put(cells: seq<byte>, c: Coord, v: byte): (r: seq<byte>)
    requires |cells| == Size && Inside(c)
    ensures |r| == Size
  {
    IndexBijection(c.x, c.y, 0);
    cells[Idx(c) := v]
  }

  predicate EmptyAt(cells: seq<byte>, c: Coord)
    requires |cells| == Size
  {
    Inside(c) && (IndexBijection(c.x, c.y, 0); cells[Idx(c)] == Empty)
  }

  // ---------------------------------------------------------------------------
  // Snake state and one movement step

  /** What the engine holds: the field's cells, the body (head first), the
      current direction and the target length. */
  datatype GameState = GameState(
    cells: seq<byte>,
    snake: seq<Coord>,
    direction: DirectionName,
    snakeLength: int)

  /** Shape of the state while a step is in progress: the body may exceed the target length. */
  predicate Placed(s: GameState) {
    && |s.cells| == Size
    && |s.snake| >= 1
    && s.snakeLength >= 1
    && forall k :: 0 <= k < |s.snake| ==> Inside(s.snake[k])
  }

  /** Shape of the state between steps. */
  predicate ValidState(s: GameState) {
    Placed(s) && |s.snake| <= s.snakeLength
  }

  function NextHead(s: GameState): Coord
    requires |s.snake| >= 1
  {
    Move(s.snake[0], s.direction)
  }

  /** Pops tail cells, clearing each to Empty, until the body fits the target length. */
  function TrimTail(s: GameState): (r: GameState)
    requires Placed(s)
    ensures ValidState(r)
    decreases |s.snake|
  {
    if |s.snake| > s.snakeLength then
      var tail := s.snake[|s.snake| - 1];
      TrimTail(s.(snake := s.snake[..|s.snake| - 1], cells := Put(s.cells, tail, Empty)))
    else
      s
  }

  /** Game.snakeStep: prepend the new head, retag the old head as body and the
      new head as head, then trim the tail. */
  function Step(s: GameState): (r: GameState)
    requires ValidState(s) && Inside(NextHead(s))
    ensures ValidState(r)
  {
    var grown := s.(
      snake := [NextHead(s)] + s.snake,
      cells := Put(Put(s.cells, s.snake[0], SnakeBody), NextHead(s), SnakeHead));
    TrimTail(grown)
  }

  /** Buffer position i is one of the cells at body index len or beyond, which a trim to len pops. */
  predicate Vacated(snake: seq<Coord>, len: int, i: int) {
    exists k :: 0 <= len <= k < |snake| && Inside(snake[k]) && Idx(snake[k]) == i
  }

  lemma {:induction false} TrimTailBody(s: GameState)
    requires Placed(s)
    ensures TrimTail(s).snake == s.snake[..Min(|s.snake|, s.snakeLength)]
    ensures TrimTail(s).direction == s.direction
    ensures TrimTail(s).snakeLength == s.snakeLength
    decreases |s.snake|
  {
    if |s.snake| > s.snakeLength {
      var tail := s.snake[|s.snake| - 1];
      var s' := s.(snake := s.snake[..|s.snake| - 1], cells := Put(s.cells, tail, Empty));
      TrimTailBody(s');
      assert s'.snake[..Min(|s'.snake|, s.snakeLength)] == s.snake[..Min(|s.snake|, s.snakeLength)];
    }
  }

  /** Popping the last body cell vacates it on top of what the shorter body vacates. */
  lemma VacatedLast(snake: seq<Coord>, len: int, i: int)
    requires 0 <= len < |snake| && forall k :: 0 <= k < |snake| ==> Inside(snake[k])
    ensures Vacated(snake, len, i) <==>
      Vacated(snake[..|snake| - 1], len, i) || Idx(snake[|snake| - 1]) == i
  {
  }

  lemma {:induction false} TrimTailCells(s: GameState, i: int)
    requires Placed(s) && 0 <= i < Size
    ensures TrimTail(s).cells[i] == if Vacated(s.snake, s.snakeLength, i) then Empty else s.cells[i]
    decreases |s.snake|
  {
    if |s.snake| > s.snakeLength {
      var n := |s.snake|;
      var tail := s.snake[n - 1];
      var s' := s.(snake := s.snake[..n - 1], cells := Put(s.cells, tail, Empty));
      TrimTailCells(s', i);
      VacatedLast(s.snake, s.snakeLength, i);
    }
  }

  /** After a step the head has moved one cell in the current direction, the
      body is the new head followed by the old body, cut to the target length,
      and the length is min(old length + 1, snakeLength). */
  lemma StepBody(s: GameState)
    requires ValidState(s) && Inside(NextHead(s))
    ensures Step(s).snake == ([Move(s.snake[0], s.direction)] + s.snake)[..Min(|s.snake| + 1, s.snakeLength)]
    ensures |Step(s).snake| == Min(|s.snake| + 1, s.snakeLength)
    ensures Step(s).snake[0] == Move(s.snake[0], s.direction)
    ensures Step(s).snake[1..] == s.snake[..|Step(s).snake| - 1]
    ensures Step(s).direction == s.direction && Step(s).snakeLength == s.snakeLength
  {
    var grown := s.(
      snake := [NextHead(s)] + s.snake,
      cells := Put(Put(s.cells, s.snake[0], SnakeBody), NextHead(s), SnakeHead));
    TrimTailBody(grown);
  }

  /** The writes of a step, in their order: the old head becomes body, the new
      head becomes head, then every popped tail cell becomes Empty (a later
      write wins). No other cell changes. */
  lemma StepCells(s: GameState, i: int)
    requires ValidState(s) && Inside(NextHead(s)) && 0 <= i < Size
    ensures Step(s).cells[i] ==
      if Vacated([NextHead(s)] + s.snake, s.snakeLength, i) then Empty
      else if i == Idx(NextHead(s)) then SnakeHead
      else if i == Idx(s.snake[0]) then SnakeBody
      else s.cells[i]
  {
    var grown := s.(
      snake := [NextHead(s)] + s.snake,
      cells := Put(Put(s.cells, s.snake[0], SnakeBody), NextHead(s), SnakeHead));
    TrimTailCells(grown, i);
  }

  /** A step pops a tail cell only when the body was already at its target
      length, and then exactly the old last cell. */
  lemma StepVacates(s: GameState, i: int)
    requires ValidState(s) && Inside(NextHead(s)) && 0 <= i < Size
    ensures Vacated([NextHead(s)] + s.snake, s.snakeLength, i) <==>
      |s.snake| == s.snakeLength && i == Idx(s.snake[|s.snake| - 1])
  {
    var body := [NextHead(s)] + s.snake;
    if |s.snake| == s.snakeLength && i == Idx(s.snake[|s.snake| - 1]) {
      assert body[s.snakeLength] == s.snake[|s.snake| - 1];
    }
  }

  /** The field shows the body: the head's cell holds SnakeHead and every
      other body cell holds SnakeBody. */
  predicate Shows(s: GameState)
    requires Placed(s)
  {
    && s.cells[Idx(s.snake[0])] == SnakeHead
    && forall k :: 1 <= k < |s.snake| ==> s.cells[Idx(s.snake[k])] == SnakeBody
  }

  predicate Distinct(cs: seq<Coord>) {
    forall i, j :: 0 <= i < j < |cs| ==> cs[i] != cs[j]
  }

  lemma IdxInjective(a: Coord, b: Coord)
    requires Inside(a) && Inside(b) && a != b
    ensures Idx(a) != Idx(b)
  {
    IndexBijection(a.x, a.y, Idx(b));
    IndexBijection(b.x, b.y, Idx(b));
  }

  /** As long as the snake does not run into its own body (the engine does not
      check this), a step keeps the field showing the snake; a one-cell snake,
      whose cell the constructor leaves unmarked, is shown after its first step. */
  lemma StepShows(s: GameState)
    requires ValidState(s) && Inside(NextHead(s))
    requires |s.snake| == 1 || Shows(s)
    requires Distinct([NextHead(s)] + s.snake)
    ensures Shows(Step(s))
  {
    var body := [NextHead(s)] + s.snake;
    var r := Step(s);
    StepBody(s);
    forall k | 0 <= k < |r.snake|
      ensures r.cells[Idx(r.snake[k])] == if k == 0 then SnakeHead else SnakeBody
    {
      var i := Idx(r.snake[k]);
      assert r.snake[k] == body[k];
      StepCells(s, i);
      StepVacates(s, i);
      if |s.snake| == s.snakeLength {
        assert body[|body| - 1] == s.snake[|s.snake| - 1];
        IdxInjective(body[k], body[|body| - 1]);
      }
      if k > 0 {
        IdxInjective(body[k], body[0]);
        if k > 1 {
          IdxInjective(body[k], body[1]);
        }
      }
    }
  }

  // ---------------------------------------------------------------------------
  // Turning and the input queue

  predicate TurnAccepted(s: GameState, name: DirectionName) {
    name !in Blocked(s.direction)
  }

  /** The head stays on the grid if the turn is accepted (the engine has no
      collision or wrap-around, so leaving the grid is outside its contract). */
  predicate CanTurn(s: GameState, name: DirectionName)
    requires |s.snake| >= 1
  {
    TurnAccepted(s, name) ==> Inside(Move(s.snake[0], name))
  }

  /** Game.turnSnake: a blocked request is dropped; otherwise the direction is
      set and the snake steps once. */
  function Turn(s: GameState, name: DirectionName): (r: GameState)
    requires ValidState(s) && CanTurn(s, name)
    ensures ValidState(r)
  {
    if name in Blocked(s.direction) then s
    else Step(s.(direction := name))
  }

  /** A request to reverse leaves everything unchanged; any other request,
      including the current direction, sets the direction and moves the head
      one cell that way. So a turn never reverses the direction. */
  lemma TurnSpec(s: GameState, name: DirectionName)
    requires ValidState(s) && CanTurn(s, name)
    ensures Reverses(s.direction, name) ==> Turn(s, name) == s
    ensures !Reverses(s.direction, name) ==>
      && Turn(s, name).direction == name
      && Turn(s, name).snake[0] == Move(s.snake[0], name)
      && Turn(s, name) == Step(s.(direction := name))
    ensures !Reverses(s.direction, Turn(s, name).direction)
  {
    BlockedIsReverse(s.direction, name);
    if !Reverses(s.direction, name) {
      StepBody(s.(direction := name));
    }
  }

  /** Every request of the queue can be applied in order without leaving the grid. */
  predicate QueueSafe(s: GameState, q: seq<DirectionName>)
    requires ValidState(s)
    decreases |q|
  {
    q == [] || (CanTurn(s, q[0]) && QueueSafe(Turn(s, q[0]), q[1..]))
  }

  /** Game.update: the queued requests applied one after the other, in arrival order. */
  function ApplyQueue(s: GameState, q: seq<DirectionName>): (r: GameState)
    requires ValidState(s) && QueueSafe(s, q)
    ensures ValidState(r)
    decreases |q|
  {
    if q == [] then s else ApplyQueue(Turn(s, q[0]), q[1..])
  }

  /** Requests split across two frames have the effect of one frame that
      received them all, in the same order. */
  lemma {:induction false} ApplyQueueAppend(s: GameState, p: seq<DirectionName>, q: seq<DirectionName>)
    requires ValidState(s) && QueueSafe(s, p + q)
    ensures QueueSafe(s, p) && QueueSafe(ApplyQueue(s, p), q)
    ensures ApplyQueue(s, p + q) == ApplyQueue(ApplyQueue(s, p), q)
    decreases |p|
  {
    if p == [] {
      assert p + q == q;
    } else {
      assert (p + q)[1..] == p[1..] + q;
      ApplyQueueAppend(Turn(s, p[0]), p[1..], q);
    }
  }

  /** Draining the queue keeps the target length, never shortens the body, and
      never leaves the body longer than the target length. */
  lemma {:induction false} ApplyQueueLength(s: GameState, q: seq<DirectionName>)
    requires ValidState(s) && QueueSafe(s, q)
    ensures ApplyQueue(s, q).snakeLength == s.snakeLength
    ensures |s.snake| <= |ApplyQueue(s, q).snake| <= s.snakeLength
    decreases |q|
  {
    if q != [] {
      var t := Turn(s, q[0]);
      if TurnAccepted(s, q[0]) {
        StepBody(s.(direction := q[0]));
      }
      ApplyQueueLength(t, q[1..]);
    }
  }

  // ---------------------------------------------------------------------------
  // Border walls

  /** Game.setWalls: the border cells become Wall, every other cell is kept. */
  function Walled(cells: seq<byte>): (r: seq<byte>)
    requires |cells| == Size
    ensures |r| == Size
  {
    seq(Size, i requires 0 <= i < Size => if OnBorder(ColumnOf(i), RowOf(i)) then Wall else cells[i])
  }

  /** Every border cell is occupied, so a walk over empty cells cannot leave the grid. */
  predicate WalledIn(cells: seq<byte>)
    requires |cells| == Size
  {
    forall x, y :: 0 <= x < Width && 0 <= y < Height && OnBorder(x, y) ==> cells[Index(x, y)] != Empty
  }

  lemma WalledAt(cells: seq<byte>, x: int, y: int)
    requires |cells| == Size && InBounds(x, y)
    ensures Walled(cells)[Index(x, y)] == if OnBorder(x, y) then Wall else cells[Index(x, y)]
  {
    IndexBijection(x, y, Index(x, y));
  }

  lemma WalledIsWalledIn(cells: seq<byte>)
    requires |cells| == Size
    ensures WalledIn(Walled(cells))
  {
    forall x, y | InBounds(x, y) && OnBorder(x, y)
      ensures Walled(cells)[Index(x, y)] != Empty
    {
      WalledAt(cells, x, y);
    }
  }

  /** An empty cell of a walled-in grid is interior, so one step from it stays on the grid. */
  lemma StepFromEmptyStaysInside(cells: seq<byte>, c: Coord, d: DirectionName)
    requires |cells| == Size && WalledIn(cells) && EmptyAt(cells, c)
    ensures Interior(c) && Inside(Move(c, d))
  {
  }

  // ---------------------------------------------------------------------------
  // Start position search

  /** The cell reached after n steps from c in direction d. */
  function Walk(c: Coord, d: DirectionName, n: nat): Coord {
    if n == 0 then c else Move(Walk(c, d, n - 1), d)
  }

  /** The n cells ahead of c in direction d are all on the grid and empty. */
  predicate Clear(cells: seq<byte>, c: Coord, d: DirectionName, n: nat)
    requires |cells| == Size
  {
    forall j :: 1 <= j <= n ==> EmptyAt(cells, Walk(c, d, j))
  }

  /** The first direction of dirs with reqSpace clear cells ahead of c. */
  function FirstClear(cells: seq<byte>, c: Coord, dirs: seq<DirectionName>, reqSpace: nat): Option<DirectionName>
    requires |cells| == Size
  {
    if dirs == [] then None
    else if Clear(cells, c, dirs[0], reqSpace) then Some(dirs[0])
    else FirstClear(cells, c, dirs[1..], reqSpace)
  }

  /** One pass of the search from candidate c: rejected unless c is empty,
      otherwise the first direction with enough clearance. */
  function Attempt(cells: seq<byte>, c: Coord, dirs: seq<DirectionName>, reqSpace: nat): Option<DirectionName>
    requires |cells| == Size
  {
    if EmptyAt(cells, c) then FirstClear(cells, c, dirs, reqSpace) else None
  }

  /** FirstClear picks d exactly when d is clear and every direction listed before it is not. */
  lemma {:induction false} FirstClearSpec(cells: seq<byte>, c: Coord, dirs: seq<DirectionName>, reqSpace: nat, d: DirectionName)
    requires |cells| == Size
    ensures FirstClear(cells, c, dirs, reqSpace) == Some(d) <==>
      exists i :: 0 <= i < |dirs| && dirs[i] == d && Clear(cells, c, d, reqSpace) &&
        forall j :: 0 <= j < i ==> !Clear(cells, c, dirs[j], reqSpace)
    ensures FirstClear(cells, c, dirs, reqSpace) == None <==>
      forall j :: 0 <= j < |dirs| ==> !Clear(cells, c, dirs[j], reqSpace)
  {
    if dirs != [] {
      FirstClearSpec(cells, c, dirs[1..], reqSpace, d);
      if Clear(cells, c, dirs[0], reqSpace) {
        if FirstClear(cells, c, dirs, reqSpace) != Some(d) {
          forall i | 0 <= i < |dirs| && dirs[i] == d && Clear(cells, c, d, reqSpace)
            ensures exists j :: 0 <= j < i && Clear(cells, c, dirs[j], reqSpace)
          {
            assert dirs[0] != d;
            assert 0 < i && Clear(cells, c, dirs[0], reqSpace);
          }
        }
      } else {
        if FirstClear(cells, c, dirs, reqSpace) == Some(d) {
          var i :| 0 <= i < |dirs[1..]| && dirs[1..][i] == d && Clear(cells, c, d, reqSpace) &&
            forall j :: 0 <= j < i ==> !Clear(cells, c, dirs[1..][j], reqSpace);
          assert dirs[i + 1] == d;
          forall j | 0 <= j < i + 1 ensures !Clear(cells, c, dirs[j], reqSpace) {
            if j > 0 { assert dirs[j] == dirs[1..][j - 1]; }
          }
        } else {
          forall i | 0 <= i < |dirs| && dirs[i] == d && Clear(cells, c, d, reqSpace)
            ensures exists j :: 0 <= j < i && Clear(cells, c, dirs[j], reqSpace)
          {
            assert i > 0;
            assert dirs[1..][i - 1] == d;
            var j :| 0 <= j < i - 1 && Clear(cells, c, dirs[1..][j], reqSpace);
            assert dirs[j + 1] == dirs[1..][j];
          }
        }
        if FirstClear(cells, c, dirs, reqSpace) == None {
          forall j | 0 <= j < |dirs| ensures !Clear(cells, c, dirs[j], reqSpace) {
            if j > 0 { assert dirs[j] == dirs[1..][j - 1]; }
          }
        }
      }
    }
  }

  /** Walking along one axis changes one coordinate by the number of steps. */
  lemma {:induction false} WalkLine(c: Coord, d: DirectionName, n: nat)
    ensures Walk(c, d, n) == match d
      case Left => Coord(c.x - n, c.y)
      case Right => Coord(c.x + n, c.y)
      case Up => Coord(c.x, c.y - n)
      case Down => Coord(c.x, c.y + n)
  {
    if n > 0 {
      WalkLine(c, d, n - 1);
    }
  }

  // ---------------------------------------------------------------------------
  // The grid a new game starts from

  /** The cells after Game's constructor: a fresh Field with its border walled. */
  function StartCells(): (r: seq<byte>)
    ensures |r| == Size
  {
    Walled(InitialCells())
  }

  /** The field's four test cells all lie in row 0, so the walls cover them:
      a new game's grid is walls on the border and Empty everywhere inside. */
  lemma StartCellsAt(x: int, y: int)
    requires InBounds(x, y)
    ensures StartCells()[Index(x, y)] == if OnBorder(x, y) then Wall else Empty
  {
    WalledAt(InitialCells(), x, y);
  }

  lemma StartEmptyAt(c: Coord)
    ensures EmptyAt(StartCells(), c) <==> Interior(c)
  {
    if Inside(c) {
      StartCellsAt(c.x, c.y);
    }
  }

  /** Clearance of four cells to the left needs x >= 5, to the right x <= 26. */
  lemma StartClear(c: Coord, d: DirectionName)
    requires Interior(c) && (d == Left || d == Right)
    ensures Clear(StartCells(), c, d, 4) <==> if d == Left then c.x >= 5 else c.x <= Width - 6
  {
    var g := StartCells();
    if (d == Left && c.x >= 5) || (d == Right && c.x <= Width - 6) {
      forall j | 1 <= j <= 4 ensures EmptyAt(g, Walk(c, d, j)) {
        WalkLine(c, d, j);
        StartEmptyAt(Walk(c, d, j));
      }
    } else {
      var j := if d == Left then c.x else Width - 1 - c.x;
      WalkLine(c, d, j);
      StartEmptyAt(Walk(c, d, j));
      assert !EmptyAt(g, Walk(c, d, j));
    }
  }

  /** On a new game's grid a candidate is accepted exactly when it is interior,
      heading left when x >= 5 and right otherwise; so the search ends at the
      first interior candidate. */
  lemma StartAttempt(c: Coord)
    ensures Attempt(StartCells(), c, [Left, Right], 4) ==
      if Interior(c) then Some(if c.x >= 5 then Left else Right) else None
  {
    StartEmptyAt(c);
    if Interior(c) {
      var g := StartCells();
      StartClear(c, Left);
      StartClear(c, Right);
      assert [Left, Right][1..] == [Right];
      if c.x < 5 {
        assert FirstClear(g, c, [Left, Right], 4) == FirstClear(g, c, [Right], 4);
        assert FirstClear(g, c, [Right], 4) == Some(Right);
      }
    }
  }
}
