/** The product page: the catalog lookup by the route's id, the not-found
    view, the gallery, the local quantity stepper, the star row and the two
    purchase actions. */
module ProductDetail {
  import opened Wrappers
  import opened Catalog
  import opened Strings
  import opened Quantity
  import opened CartRequests

  /** `products.findIndex(p => p.id === id)`, as an index. */
  function FindIndex(catalog: seq<Product>, id: int): (r: Option<nat>)
    ensures r.Some? ==> r.value < |catalog| && catalog[r.value].id == id
    ensures r.Some? ==> forall j :: 0 <= j < r.value ==> catalog[j].id != id
    ensures r.None? ==> forall j :: 0 <= j < |catalog| ==> catalog[j].id != id
  {
    if |catalog| == 0 then None
    else if catalog[0].id == id then Some(0)
    else match FindIndex(catalog[1..], id)
      case None => None
      case Some(k) => Some(k + 1)
  }

  datatype Page = NotFound | Found(product: Product)

  /** The page for route `/product/:id`: `products.find(p => p.id ===
      parseInt(id))`, showing "Product not found" when that is undefined
      (a `NaN` id matches nothing). */
  function Open(catalog: seq<Product>, routeId: string): Page {
    match ParseInt(routeId)
    case None => NotFound
    case Some(id) =>
      match FindIndex(catalog, id)
      case None => NotFound
      case Some(i) => Found(catalog[i])
  }

  /** The page shows the first catalog product whose id is the parsed route
      id, and the not-found view exactly when there is none. */
  lemma OpenShowsFirstMatch(catalog: seq<Product>, routeId: string)
    ensures Open(catalog, routeId).NotFound? <==>
            (ParseInt(routeId).None? ||
             forall j :: 0 <= j < |catalog| ==> catalog[j].id != ParseInt(routeId).value)
    ensures Open(catalog, routeId).Found? ==>
            exists i :: 0 <= i < |catalog| && catalog[i] == Open(catalog, routeId).product &&
                        Some(catalog[i].id) == ParseInt(routeId) &&
                        forall j :: 0 <= j < i ==> catalog[j].id != catalog[i].id
  {
  }

  /** With unique ids, the route written from a product's id opens that
      product, with or without trailing text after the digits. */
  lemma RouteOpensProduct(catalog: seq<Product>, i: nat, rest: string)
    requires i < |catalog| && UniqueIds(catalog)
    requires |rest| == 0 ||
             (DigitValue(rest[0]) >= 10 && (catalog[i].id != 0 || (rest[0] != 'x' && rest[0] != 'X')))
    ensures Open(catalog, IntText(catalog[i].id) + rest) == Found(catalog[i])
  {
    ParseIntIntText(catalog[i].id, rest);
    var r := FindIndex(catalog, catalog[i].id);
    assert r.Some?;
    assert r.value == i;
  }

  /** The gallery: the product's one image, three times. */
  function Gallery(p: Product): seq<string> {
    [p.image, p.image, p.image]
  }

  /** The page's local state: the selected gallery index and the quantity. */
  datatype State = State(selectedImage: nat, quantity: int)

  const Initial := State(0, 1)

  /** A thumbnail click (its index in the gallery) or a stepper press. */
  datatype Event = SelectImage(index: nat) | Step(press: Press)

  function Apply(st: State, e: Event): State {
    match e
    case SelectImage(k) => st.(selectedImage := k)
    case Step(Minus) => st.(quantity := Decremented(st.quantity))
    case Step(Plus) => st.(quantity := Incremented(st.quantity))
  }

  function Run(st: State, events: seq<Event>): State
    decreases |events|
  {
    if |events| == 0 then st else Run(Apply(st, events[0]), events[1..])
  }

  /** Thumbnail clicks carry the index of a rendered thumbnail. */
  predicate FromGallery(p: Product, events: seq<Event>) {
    forall i :: 0 <= i < |events| && events[i].SelectImage? ==> events[i].index < |Gallery(p)|
  }

  /** From any reachable state: the selected index is a gallery index, so the
      main image is the product's image, and the quantity is at least 1. */
  lemma {:induction false} ReachableStates(p: Product, st: State, events: seq<Event>)
    requires st.selectedImage < |Gallery(p)| && st.quantity >= 1
    requires FromGallery(p, events)
    ensures Run(st, events).selectedImage < |Gallery(p)|
    ensures Gallery(p)[Run(st, events).selectedImage] == p.image
    ensures Run(st, events).quantity >= 1
    decreases |events|
  {
    if |events| > 0 {
      StepperRequests(st.quantity);
      ReachableStates(p, Apply(st, events[0]), events[1..]);
    }
  }

  /** `handleAddToCart`: the product record with the selected quantity
      spread in. */
  function AddToCartRequest(p: Product, st: State): Request {
    AddToCart(p, Some(st.quantity))
  }

  /** Whatever the user did on the page, "Add to Cart" sends the displayed
      product unchanged with a quantity of at least 1. */
  lemma AddToCartSendsProduct(p: Product, events: seq<Event>)
    requires FromGallery(p, events)
    ensures AddToCartRequest(p, Run(Initial, events)).product == p
    ensures AddToCartRequest(p, Run(Initial, events)).quantity.Some?
    ensures AddToCartRequest(p, Run(Initial, events)).quantity.value >= 1
  {
    ReachableStates(p, Initial, events);
  }

  /** The five stars: star `i` is filled when `i < Math.floor(rating)`. */
  function Stars(ratingTenths: nat): seq<bool> {
    seq(5, i requires 0 <= i < 5 => i < ratingTenths / 10)
  }

  function CountFilled(stars: seq<bool>): nat {
    if |stars| == 0 then 0 else (if stars[0] then 1 else 0) + CountFilled(stars[1..])
  }

  lemma {:induction false} CountFilledPrefix(stars: seq<bool>, n: nat)
    requires n <= |stars|
    requires forall i :: 0 <= i < |stars| ==> stars[i] == (i < n)
    ensures CountFilled(stars) == n
    decreases |stars|
  {
    if |stars| > 0 {
      CountFilledPrefix(stars[1..], if n == 0 then 0 else n - 1);
    }
  }

  /** The number of filled stars is `min(5, floor(rating))`. */
  lemma FilledStars(ratingTenths: nat)
    ensures CountFilled(Stars(ratingTenths)) == if ratingTenths / 10 < 5 then ratingTenths / 10 else 5
  {
    var n := if ratingTenths / 10 < 5 then ratingTenths / 10 else 5;
    CountFilledPrefix(Stars(ratingTenths), n);
  }

  /** `handleBuyNow`'s message. */
  function BuyNowMessage(p: Product): string {
    "Hi! I'm interested in buying " + p.name + " for $" + PriceText(p.price) +
      ". Can you help me with the purchase?"
  }

  /** The buy-now message names the product and its price, and the price
      read back from it is the product's price. */
  lemma BuyNowNamesProduct(p: Product)
    ensures Includes(BuyNowMessage(p), p.name)
    ensures Includes(BuyNowMessage(p), PriceText(p.price))
    ensures CentsOf(PriceText(p.price)) == p.price
  {
    var lead := "Hi! I'm interested in buying ";
    var close := ". Can you help me with the purchase?";
    IncludesMiddle(lead, p.name, " for $" + PriceText(p.price) + close);
    assert BuyNowMessage(p) == lead + p.name + (" for $" + PriceText(p.price) + close);
    IncludesMiddle(lead + p.name + " for $", PriceText(p.price), close);
    PriceTextRoundTrip(p.price);
  }
}
