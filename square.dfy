/** The Square record of the game field (MinesweeperPlayer/Square.py). */
module Squares {
  import opened Optional

  /**
   * One square of the game field as extracted from a screenshot. Square
   * defines neither equality nor hashing, so two squares are the same
   * only when they are the same object; a class gives exactly that
   * identity. No code of the decision core assigns these fields after
   * construction, so they are constants here.
   */
  class Square {
    /** Pixel position of the square's centre in the screenshot. */
    const centerCoordinates: (int, int)
    /** The number shown on the square; None when the extractor read none. */
    const value: Option<int>
    const isBomb: bool
    /** True while the square has not been clicked (revealed). */
    const isUnchecked: bool

    /**
     * Stores the four attributes exactly as given. The defaults are those
     * of the source: centre (0, 0), value -1, no bomb, unchecked. No
     * relation between the attributes is enforced: an unchecked square may
     * carry a number and a checked one may carry None.
     */
    constructor (centerCoordinates: (int, int) := (0, 0), value: Option<int> := Some(-1),
                 isBomb: bool := false, isUnchecked: bool := true)
      ensures this.centerCoordinates == centerCoordinates
      ensures this.value == value
      ensures this.isBomb == isBomb
      ensures this.isUnchecked == isUnchecked
    {
      this.centerCoordinates := centerCoordinates;
      this.value := value;
      this.isBomb := isBomb;
      this.isUnchecked := isUnchecked;
    }
  }

  /** A square built with no arguments: centre (0, 0), value -1, no bomb, unchecked. */
  method DefaultSquare() returns (square: Square)
    ensures fresh(square)
    ensures square.centerCoordinates == (0, 0) && square.value == Some(-1)
    ensures !square.isBomb && square.isUnchecked
  {
    square := new Square();
  }
}
