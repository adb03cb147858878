/** The shared table of cell tags (src/game-elements.ts). */
module Elements {
  import opened Numeric

  datatype GameElement =
    | Space | SnakeBody | SnakeHead | SnakeChomp | Fruit
    | Wall | WallHeavy | WallMedium | WallLight

  /** The byte each element is stored as in a field. */
  function Value(e: GameElement): byte {
    match e
    case Space => 0x00
    case SnakeBody => 0x20
    case SnakeHead => 0x40
    case SnakeChomp => 0x60
    case Fruit => 0x80
    case Wall => 0xd0
    case WallHeavy => 0xc8
    case WallMedium => 0xe2
    case WallLight => 0xf4
  }

  /** Distinct elements are stored as distinct bytes, so a cell's byte names its element. */
  lemma ValueInjective(a: GameElement, b: GameElement)
    ensures Value(a) == Value(b) ==> a == b
  {
  }
}
