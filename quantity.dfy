/** The quantity steppers that the cart page and the product page share: the
    minus button asks for `Math.max(1, q - 1)`, the plus button for `q + 1`. */
module Quantity {
  function Decremented(q: int): int {
    if 1 > q - 1 then 1 else q - 1
  }

  function Incremented(q: int): int {
    q + 1
  }

  /** Minus never asks for less than 1, asks for 1 at quantity 1, and
      otherwise takes one off; plus and minus undo each other above 1. */
  lemma StepperRequests(q: int)
    ensures Decremented(q) >= 1
    ensures q <= 1 ==> Decremented(q) == 1
    ensures q >= 2 ==> Decremented(q) == q - 1
    ensures q >= 1 ==> Decremented(Incremented(q)) == q
    ensures q >= 2 ==> Incremented(Decremented(q)) == q
  {
  }

  datatype Press = Minus | Plus

  function Pressed(q: int, presses: seq<Press>): int
    decreases |presses|
  {
    if |presses| == 0 then q
    else Pressed(if presses[0] == Minus then Decremented(q) else Incremented(q), presses[1..])
  }

  function PlusCount(presses: seq<Press>): nat {
    if |presses| == 0 then 0 else (if presses[0] == Plus then 1 else 0) + PlusCount(presses[1..])
  }

  /** From a quantity of at least 1, no run of presses drives it below 1, and
      it never rises by more than the number of plus presses. */
  lemma {:induction false} PressesStayPositive(q: int, presses: seq<Press>)
    requires q >= 1
    ensures 1 <= Pressed(q, presses) <= q + PlusCount(presses)
    decreases |presses|
  {
    if |presses| > 0 {
      var next := if presses[0] == Minus then Decremented(q) else Incremented(q);
      PressesStayPositive(next, presses[1..]);
    }
  }
}
