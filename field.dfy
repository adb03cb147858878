/** The play field (src/field.ts): a fixed 32 x 16 grid of byte cells kept
    row-major in one flat buffer. */
module Fields {
  import opened Numeric

  const Width: int := 32
  const Height: int := 16
  const Size: int := Width * Height

  predicate InBounds(x: int, y: int) {
    0 <= x < Width && 0 <= y < Height
  }

  /** Row-major position of cell (x, y) in the flat buffer. */
  function Index(x: int, y: int): int
    requires InBounds(x, y)
  {
    y * Width + x
  }

  function ColumnOf(i: int): int { i % Width }
  function RowOf(i: int): int { i / Width }

  /** Row-major addressing is a bijection between the grid and the buffer positions. */
  lemma IndexBijection(x: int, y: int, i: int)
    requires InBounds(x, y) && 0 <= i < Size
    ensures 0 <= Index(x, y) < Size
    ensures InBounds(ColumnOf(i), RowOf(i)) && Index(ColumnOf(i), RowOf(i)) == i
    ensures Index(x, y) == i <==> x == ColumnOf(i) && y == RowOf(i)
  {
  }

  /** The value the constructor leaves in buffer position i. */
  function InitialCell(i: int): byte {
    if i == 4 then Field.SnakeBody
    else if i == 5 then Field.SnakeHead
    else if i == 16 then Field.Wall
    else if i == 17 then Field.Fruit
    else Field.Background
  }

  function InitialCells(): seq<byte> {
    seq(Size, InitialCell)
  }

  class Field {
    // Field's own tag table; its wall (0xc0) differs from the 0xd0 of the game's table.
    static const Background: byte := 0x00
    static const SnakeBody: byte := 0x20
    static const SnakeHead: byte := 0x40
    static const Fruit: byte := 0x80
    static const Wall: byte := 0xc0

    const data: array<byte>

    ghost predicate Valid() {
      data.Length == Size
    }

    /** A zeroed buffer with four test cells: body, head, wall and fruit in row 0. */
    constructor ()
      ensures Valid() && fresh(data)
      ensures data[..] == InitialCells()
    {
      var d := new byte[Size](_ => 0);
      d[4] := SnakeBody;
      d[5] := SnakeHead;
      d[16] := Wall;
      d[17] := Fruit;
      data := d;
      new;
      assert forall i :: 0 <= i < Size ==> data[i] == InitialCells()[i];
    }

    /** The per-frame update of this early version: always asks for a redraw. */
    method Update() returns (redraw: bool)
      ensures redraw
    {
      redraw := true;
    }

    function GetCell(x: int, y: int): byte
      reads data
      requires Valid() && InBounds(x, y)
    {
      data[Index(x, y)]
    }

    /** Writes exactly one cell, the one at (x, y) in row-major order. */
    method SetCell(x: int, y: int, value: byte)
      requires Valid() && InBounds(x, y)
      modifies data
      ensures data[..] == old(data[..])[Index(x, y) := value]
    {
      data[Index(x, y)] := value;
    }
  }

  /** The four element tags of the field's own table are pairwise distinct. */
  lemma FieldTagsDistinct()
    ensures |{Field.Background, Field.SnakeBody, Field.SnakeHead, Field.Fruit, Field.Wall}| == 5
  {
  }
}
