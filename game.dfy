/** The snake engine (src/game.ts) as the class the TypeScript code has: the field it
    owns, the body, the direction, the target length and the input queue,
    updated in place. Each method is proved equal to the rule of the same
    name in GameRules, where the properties are proved. */
module SnakeGame {
  import opened Wrappers
  import opened Fields
  import opened GameRules

  class Game {
    const field: Field
    var snakeLength: int
    var snake: seq<Coord>
    var snakeDirection: DirectionName
    var inputQueue: seq<DirectionName>

    /** The engine's state as a value. */
    ghost function State(): GameState
      reads this, field.data
    {
      GameState(field.data[..], snake, snakeDirection, snakeLength)
    }

    ghost predicate Valid()
      reads this, field.data
    {
      field.Valid() && ValidState(State())
    }

    /** Walls the border of a fresh field, then places a one-cell snake at the
        first candidate of `rolls` (the random draws) that the search accepts.
        The start cell itself is not written to the field. */
    constructor (rolls: seq<Coord>)
      requires forall k :: 0 <= k < |rolls| ==> Inside(rolls[k])
      requires exists k :: 0 <= k < |rolls| && Interior(rolls[k])
      ensures Valid() && fresh(field) && fresh(field.data)
      ensures field.data[..] == StartCells()
      ensures snakeLength == SnakeStartLength && inputQueue == []
      ensures exists k ::
        && 0 <= k < |rolls| && snake == [rolls[k]] && Interior(rolls[k])
        && forall j :: 0 <= j < k ==> !Interior(rolls[j])
      ensures snakeDirection == if snake[0].x >= 5 then Left else Right
    {
      field := new Field();
      snakeLength := 5;
      snake := [];
      inputQueue := [];
      new;
      SetWalls();
      WalledIsWalledIn(InitialCells());
      forall k | 0 <= k < |rolls| ensures Attempt(StartCells(), rolls[k], [Left, Right], 4) ==
        if Interior(rolls[k]) then Some(if rolls[k].x >= 5 then Left else Right) else None
      {
        StartAttempt(rolls[k]);
      }
      var startPos, startDir := FindSnakeStart([Left, Right], 4, rolls);
      snake := [startPos];
      snakeDirection := startDir;
    }

    method PlayerInput(directionName: DirectionName)
      modifies this`inputQueue
      ensures inputQueue == old(inputQueue) + [directionName]
    {
      inputQueue := inputQueue + [directionName];
    }

    /** Writes Wall along row 0, row Height - 1, column 0 and column Width - 1;
        every other cell keeps its value. */
    method SetWalls()
      requires field.Valid()
      modifies field.data
      ensures field.data[..] == Walled(old(field.data[..]))
    {
      ghost var before := field.data[..];
      var column := Width;
      while column > 0
        invariant 0 <= column <= Width
        invariant forall i :: 0 <= i < Size ==>
          field.data[i] == if (RowOf(i) == 0 || RowOf(i) == Height - 1) && column <= ColumnOf(i) then Wall else before[i]
      {
        column := column - 1;
        field.SetCell(column, 0, Wall);
        field.SetCell(column, Height - 1, Wall);
      }
      var row := Height - 1;
      while row > 1
        invariant 1 <= row <= Height - 1
        invariant forall i :: 0 <= i < Size ==>
          field.data[i] == (
            if RowOf(i) == 0 || RowOf(i) == Height - 1 then Wall
            else if (ColumnOf(i) == 0 || ColumnOf(i) == Width - 1) && row <= RowOf(i) then Wall
            else before[i])
      {
        row := row - 1;
        field.SetCell(0, row, Wall);
        field.SetCell(Width - 1, row, Wall);
      }
      assert forall i :: 0 <= i < Size ==> field.data[..][i] == Walled(before)[i];
    }

    /** Draws candidates from `rolls` until one is empty, then tries the
        directions in the order given; returns the first candidate with
        reqSpace empty cells ahead in some direction, and that direction.
        Every probe stays on the grid because the border is walled. */
    method FindSnakeStart(dirs: seq<DirectionName>, reqSpace: nat, rolls: seq<Coord>)
        returns (start: Coord, dir: DirectionName)
      requires field.Valid() && WalledIn(field.data[..])
      requires forall k :: 0 <= k < |rolls| ==> Inside(rolls[k])
      requires exists k :: 0 <= k < |rolls| && Attempt(field.data[..], rolls[k], dirs, reqSpace).Some?
      ensures Attempt(field.data[..], start, dirs, reqSpace) == Some(dir)
      ensures exists k ::
        && 0 <= k < |rolls| && rolls[k] == start
        && forall j :: 0 <= j < k ==> Attempt(field.data[..], rolls[j], dirs, reqSpace) == None
    {
      ghost var cells := field.data[..];
      var n := 0;
      while true
        invariant 0 <= n <= |rolls|
        invariant forall j :: 0 <= j < n ==> Attempt(cells, rolls[j], dirs, reqSpace) == None
        invariant exists k :: n <= k < |rolls| && Attempt(cells, rolls[k], dirs, reqSpace).Some?
        decreases |rolls| - n
      {
        // draw until the candidate is empty
        var startCoord := rolls[n];
        n := n + 1;
        while field.GetCell(startCoord.x, startCoord.y) != Empty
          invariant 1 <= n <= |rolls| && startCoord == rolls[n - 1]
          invariant forall j :: 0 <= j < n - 1 ==> Attempt(cells, rolls[j], dirs, reqSpace) == None
          invariant exists k :: n - 1 <= k < |rolls| && Attempt(cells, rolls[k], dirs, reqSpace).Some?
          decreases |rolls| - n
        {
          startCoord := rolls[n];
          n := n + 1;
        }
        assert EmptyAt(cells, startCoord);
        // try each direction for the required clearance
        var i := 0;
        while i < |dirs|
          invariant 0 <= i <= |dirs|
          invariant FirstClear(cells, startCoord, dirs, reqSpace) == FirstClear(cells, startCoord, dirs[i..], reqSpace)
        {
          var d := dirs[i];
          var nextCoord := startCoord;
          var clearance := 0;
          while clearance < reqSpace
            invariant 0 <= clearance <= reqSpace
            invariant nextCoord == Walk(startCoord, d, clearance)
            invariant EmptyAt(cells, nextCoord)
            invariant Clear(cells, startCoord, d, clearance)
          {
            StepFromEmptyStaysInside(cells, nextCoord, d);
            nextCoord := Move(nextCoord, d);
            if field.GetCell(nextCoord.x, nextCoord.y) != Empty {
              assert !EmptyAt(cells, Walk(startCoord, d, clearance + 1));
              break;
            }
            clearance := clearance + 1;
          }
          if clearance == reqSpace {
            return startCoord, d;
          }
          assert !Clear(cells, startCoord, d, reqSpace);
          assert dirs[i..][1..] == dirs[i + 1..];
          i := i + 1;
        }
      }
    }

    /** Moves the snake one cell in its direction (see GameRules.Step). */
    method SnakeStep()
      requires Valid() && Inside(NextHead(State()))
      modifies this`snake, field.data
      ensures Valid()
      ensures State() == Step(old(State()))
    {
      var oldHead := snake[0];
      var newHead := Move(oldHead, snakeDirection);
      snake := [newHead] + snake;
      field.SetCell(oldHead.x, oldHead.y, SnakeBody);
      field.SetCell(newHead.x, newHead.y, SnakeHead);
      while |snake| > snakeLength
        invariant field.Valid() && Placed(State())
        invariant TrimTail(State()) == Step(old(State()))
        decreases |snake|
      {
        var oldTail := snake[|snake| - 1];
        snake := snake[..|snake| - 1];
        field.SetCell(oldTail.x, oldTail.y, Empty);
      }
    }

    /** Drops a reversing request; otherwise turns and steps once (see GameRules.Turn). */
    method TurnSnake(directionName: DirectionName)
      requires Valid() && CanTurn(State(), directionName)
      modifies this`snakeDirection, this`snake, field.data
      ensures Valid()
      ensures State() == Turn(old(State()), directionName)
    {
      var blocked := Blocked(snakeDirection);
      if directionName !in blocked {
        snakeDirection := directionName;
        SnakeStep();
      }
    }

    /** Applies the queued requests in arrival order, empties the queue and
        asks for a redraw. */
    method Update() returns (redraw: bool)
      requires Valid() && QueueSafe(State(), inputQueue)
      modifies this`snakeDirection, this`snake, this`inputQueue, field.data
      ensures Valid() && redraw && inputQueue == []
      ensures State() == ApplyQueue(old(State()), old(inputQueue))
    {
      var queue := inputQueue;
      assert queue[0..] == queue;
      var i := 0;
      while i < |queue|
        invariant 0 <= i <= |queue| && Valid()
        invariant QueueSafe(State(), queue[i..])
        invariant ApplyQueue(State(), queue[i..]) == ApplyQueue(old(State()), queue)
      {
        assert queue[i..][1..] == queue[i + 1..];
        TurnSnake(queue[i]);
        i := i + 1;
      }
      inputQueue := [];
      redraw := true;
    }
  }
}
