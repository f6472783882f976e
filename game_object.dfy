/** A positioned board object: the apple, the poison and the rock are
    instances of it (they differ only in how they are drawn). */
module GameObjects {
  import opened Grid

  class GameObject {
    var position: Cell

    /** Every object starts in the centre of the screen. */
    constructor ()
      ensures position == (ScreenWidth / 2, ScreenHeight / 2)
      ensures OnGrid(position)
    {
      position := (ScreenWidth / 2, ScreenHeight / 2);
    }

    /** Moves the object to a randomly drawn cell. The draw does not look at
        the snake or the other objects, so it may land on them. */
    method RandomizePosition()
      modifies this
      ensures OnGrid(position)
    {
      position := RandomCell();
    }
  }
}
