/** The apple: a single cell re-placed at random on the grid. The random
    column and row are drawn from 0 to the grid width and height INCLUSIVE,
    so the apple can land one cell past the right or bottom edge. */
module Apples {
  import opened Geometry

  /** The cells a placement can produce: multiples of the grid size from 0 up
      to and including the screen width and height. */
  predicate Placeable(p: Pos)
  {
    && 0 <= p.x <= ScreenWidth && p.x % GridSize == 0
    && 0 <= p.y <= ScreenHeight && p.y % GridSize == 0
  }

  /** The cell for a drawn column and row. */
  function Drawn(col: int, row: int): (p: Pos)
    requires 0 <= col <= GridWidth && 0 <= row <= GridHeight
    ensures Placeable(p)
  {
    Pos(col * GridSize, row * GridSize)
  }

  /** The placeable cells are exactly the cells some draw produces. */
  lemma PlaceableIffDrawn(p: Pos)
    ensures Placeable(p) <==>
            exists col, row :: 0 <= col <= GridWidth && 0 <= row <= GridHeight && Drawn(col, row) == p
  {
    if Placeable(p) {
      var col, row := p.x / GridSize, p.y / GridSize;
      assert Drawn(col, row) == p;
    }
  }

  /** Some placements lie outside the screen, on the column just right of it
      and the row just below it. */
  lemma PlacementCanLeaveScreen(col: int, row: int)
    requires 0 <= col <= GridWidth && 0 <= row <= GridHeight
    ensures !OnScreen(Drawn(GridWidth, row))
    ensures !OnScreen(Drawn(col, GridHeight))
  {
  }

  class Apple {
    var position: Pos

    constructor ()
      ensures Placeable(position)
    {
      position := Center;
      new;
      RandomizePosition();
    }

    /** Moves the apple to a random grid cell; every placeable cell is a
        possible outcome. */
    method RandomizePosition()
      modifies this
      ensures Placeable(position)
    {
      var col :| 0 <= col <= GridWidth;
      var row :| 0 <= row <= GridHeight;
      position := Drawn(col, row);
    }
  }

}
