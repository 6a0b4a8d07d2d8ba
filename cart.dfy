/**
 * The player's cart: a box that follows the pointer unless frozen, whose
 * width the effects change, and whose wheels turn with its movement.
 */
module Carts {
  import opened DotNet

  class Cart {
    var X: int
    var Y: int
    const BaseWidth: int := 60
    var Width: int
    var Height: int
    var Color: DotNet.Color
    var IsFrozen: bool
    /**
     * The sum of all movements so far. The wheel rotation is half of it;
     * it is kept as an integer sum instead of a float.
     */
    var Travel: int
    var LastMovement: int

    /** The wheel rotation, in degrees. */
    function WheelRotation(): (r: real)
      reads this
      ensures 2.0 * r == Travel as real
      ensures r >= 0.0 <==> Travel >= 0
    {
      Travel as real / 2.0
    }

    /** The box the engine tests particles against. */
    function Bounds(): (r: Rectangle)
      reads this
      ensures r == Rectangle(X, Y, Width, Height)
    {
      Rectangle(X, Y, Width, Height)
    }

    /** A new cart: base width 60, height 30, at the origin, not frozen, not moving. */
    constructor ()
      ensures Width == BaseWidth == 60 && !IsFrozen
      ensures X == 0 && Y == 0 && Height == 30 && Color == OrangeRed
      ensures LastMovement == 0 && Travel == 0
    {
      X, Y, Width, Height := 0, 0, BaseWidth, 30;
      Color, IsFrozen := OrangeRed, false;
      Travel, LastMovement := 0, 0;
    }

    /**
     * Pointer motion. Unless frozen the cart is centred on `mouseX` (there
     * is no clamping: `screenWidth` is not used); frozen, it stays put. The
     * movement is recorded and turns the wheels.
     */
    method Update(mouseX: int, screenWidth: int)
      modifies this`X, this`LastMovement, this`Travel
      ensures X == if old(IsFrozen) then old(X) else mouseX - Half(Width)
      ensures LastMovement == X - old(X)
      ensures old(IsFrozen) ==> LastMovement == 0
      ensures Travel == old(Travel) + LastMovement
      ensures WheelRotation() == old(WheelRotation()) + LastMovement as real / 2.0
      ensures Travel - X == old(Travel - X)
      ensures Width == old(Width) && Y == old(Y) && Height == old(Height) && IsFrozen == old(IsFrozen)
    {
      var oldX := X;
      if !IsFrozen {
        X := mouseX - Half(Width);
      }
      LastMovement := X - oldX;
      UpdateWheels();
    }

    /** The wheels turn by half of the last movement. */
    method UpdateWheels()
      modifies this`Travel
      ensures Travel == old(Travel) + LastMovement
      ensures WheelRotation() == old(WheelRotation()) + LastMovement as real * 0.5
    {
      Travel := Travel + LastMovement;
    }

    /** Back to base width and free to move; position and wheels are untouched. */
    method ResetSize()
      modifies this`Width, this`IsFrozen
      ensures Width == BaseWidth && !IsFrozen
      ensures X == old(X) && Y == old(Y) && LastMovement == old(LastMovement) && Travel == old(Travel)
    {
      Width := BaseWidth;
      IsFrozen := false;
    }
  }
}
