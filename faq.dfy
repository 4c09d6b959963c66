/** The FAQ accordion: the page keeps the set of ids whose answer is open and
    replaces it with a fresh set on every toggle. */
module Faq {
  const InitialOpen: set<int> := {}

  /** `toggleItem`: the copy gains `id` if it lacked it and loses it otherwise. */
  function Toggle(open: set<int>, id: int): (r: set<int>)
    ensures id in r <==> id !in open
    ensures forall other :: other != id ==> (other in r <==> other in open)
  {
    if id in open then open - {id} else open + {id}
  }

  /** Toggling twice puts the accordion back as it was. */
  lemma ToggleTwice(open: set<int>, id: int)
    ensures Toggle(Toggle(open, id), id) == open
  {
  }

  predicate IsActivationKey(key: string) {
    key == "Enter" || key == " "
  }

  /** `handleKeyDown`: Enter and Space toggle, other keys do nothing. */
  function HandleKeyDown(open: set<int>, key: string, id: int): set<int> {
    if IsActivationKey(key) then Toggle(open, id) else open
  }

  lemma KeyDownEffect(open: set<int>, key: string, id: int)
    ensures id in HandleKeyDown(open, key, id) <==> (id in open) != IsActivationKey(key)
    ensures forall other :: other != id ==> (other in HandleKeyDown(open, key, id) <==> other in open)
  {
  }

  /** What one question renders: the button's `aria-expanded`, the chevron's
      rotation in degrees, and whether the answer panel is present. */
  datatype ItemView = ItemView(ariaExpanded: bool, rotation: int, answerShown: bool)

  function View(open: set<int>, id: int): (v: ItemView) {
    var isOpen := id in open;
    ItemView(isOpen, if isOpen then 180 else 0, isOpen)
  }

  /** Initially every answer is hidden; a toggle flips exactly the item
      toggled, and the three signals always agree. */
  lemma ViewAfterToggle(open: set<int>, id: int, other: int)
    ensures !View(InitialOpen, other).answerShown && !View(InitialOpen, other).ariaExpanded
    ensures View(open, other).ariaExpanded == View(open, other).answerShown
    ensures View(open, other).rotation == if View(open, other).answerShown then 180 else 0
    ensures View(Toggle(open, id), id).answerShown == !View(open, id).answerShown
    ensures other != id ==> View(Toggle(open, id), other) == View(open, other)
  {
  }

  /** The open set after a run of clicks, in order. */
  function Clicks(open: set<int>, ids: seq<int>): set<int>
    decreases |ids|
  {
    if |ids| == 0 then open else Clicks(Toggle(open, ids[0]), ids[1..])
  }

  function Occurrences(ids: seq<int>, x: int): nat {
    if |ids| == 0 then 0 else (if ids[0] == x then 1 else 0) + Occurrences(ids[1..], x)
  }

  /** After any run of clicks an item is open exactly when its open state was
      flipped an odd number of times. */
  lemma {:induction false} ClicksParity(open: set<int>, ids: seq<int>, x: int)
    ensures x in Clicks(open, ids) <==> (x in open) != (Occurrences(ids, x) % 2 == 1)
    decreases |ids|
  {
    if |ids| > 0 {
      ClicksParity(Toggle(open, ids[0]), ids[1..], x);
    }
  }
}
