/** The cart page: what it renders for the store's line items and the
    requests its buttons send back to the store. The checkout message is built
    from the items alone; nothing in it changes the cart. */
module CartPage {
  import opened Catalog
  import opened Strings
  import opened Quantity
  import opened CartRequests

  /** A cart entry: the product's fields plus the quantity the store keeps. */
  datatype CartLine = CartLine(product: Product, quantity: nat)

  function LineTotal(l: CartLine): nat {
    l.product.price * l.quantity
  }

  /** One checkout line: `<name> x<quantity> - $<line total with 2 decimals>`. */
  function OrderLine(l: CartLine): string {
    l.product.name + " x" + NatToString(l.quantity) + " - $" + Fixed2(LineTotal(l))
  }

  function OrderLines(items: seq<CartLine>): seq<string> {
    seq(|items|, i requires 0 <= i < |items| => OrderLine(items[i]))
  }

  const Greeting := "Hi! I'd like to place an order:"
  const Closing := "Can you help me complete this purchase?"

  /** The message template: four blocks separated by blank lines. */
  function Letter(greeting: string, body: string, total: string, closing: string): string {
    greeting + "\n\n" + body + "\n\n" + total + "\n\n" + closing
  }

  /** `handleCheckout`'s message; `totalCents` is the store's `getTotalPrice()`. */
  function CheckoutMessage(items: seq<CartLine>, totalCents: nat): string {
    Letter(Greeting, Join(OrderLines(items), '\n'), "Total: $" + Fixed2(totalCents), Closing)
  }

  lemma NoBreakInFixed2(cents: nat)
    ensures '\n' !in Fixed2(cents) && '$' !in Fixed2(cents)
  {
    var s := Fixed2(cents);
    var whole := NatToString(cents / 100);
    assert forall i :: 0 <= i < |whole| ==> IsDecimalDigit(whole[i]);
    assert forall i :: 0 <= i < |s| ==> s[i] == '.' || IsDecimalDigit(s[i]);
  }

  lemma NoBreakInOrderLine(l: CartLine)
    requires '\n' !in l.product.name
    ensures '\n' !in OrderLine(l)
  {
    NoPointInDigits(l.quantity);
    NoBreakInFixed2(LineTotal(l));
  }

  /** The fixed lines that follow the order lines. */
  function TailLines(totalCents: nat): seq<string> {
    ["", "Total: $" + Fixed2(totalCents), "", Closing]
  }

  /** The template is a join of its blocks and the blank lines between them,
      whatever the greeting, order lines, total line and closing. */
  lemma {:induction false} LetterIsJoin(g: string, lines: seq<string>, x: string, c: string)
    requires |lines| >= 1
    ensures Letter(g, Join(lines, '\n'), x, c) == Join([g, ""] + lines + ["", x, "", c], '\n')
  {
    var head := [g, ""];
    var tail := ["", x, "", c];
    var nl := "\n";
    JoinAppend(head, lines, '\n');
    JoinAppend(head + lines, tail, '\n');
    assert head[1..] == [""];
    assert Join(head, '\n') == g + nl;
    assert tail[1..] == [x, "", c];
    assert tail[1..][1..] == ["", c];
    assert tail[1..][1..][1..] == [c];
    assert Join(["", c], '\n') == nl + c;
    assert Join([x, "", c], '\n') == x + nl + nl + c;
    assert Join(tail, '\n') == nl + x + nl + nl + c;
    assert "\n\n" == nl + nl;
  }

  lemma MessageIsJoin(items: seq<CartLine>, totalCents: nat)
    requires |items| >= 1
    ensures CheckoutMessage(items, totalCents) ==
            Join([Greeting, ""] + OrderLines(items) + TailLines(totalCents), '\n')
  {
    LetterIsJoin(Greeting, OrderLines(items), "Total: $" + Fixed2(totalCents), Closing);
  }

  lemma NoBreakInParts(items: seq<CartLine>, totalCents: nat)
    requires forall i :: 0 <= i < |items| ==> '\n' !in items[i].product.name
    ensures forall i :: 0 <= i < |OrderLines(items)| ==> '\n' !in OrderLines(items)[i]
    ensures forall i :: 0 <= i < |TailLines(totalCents)| ==> '\n' !in TailLines(totalCents)[i]
  {
    NoBreakInFixed2(totalCents);
    forall i | 0 <= i < |items| ensures '\n' !in OrderLines(items)[i] {
      NoBreakInOrderLine(items[i]);
    }
  }

  /** Read line by line, the checkout message is the greeting, a blank line,
      one order line per cart item in cart order, a blank line, the total, a
      blank line and the closing question. (Item names hold no line break.) */
  lemma CheckoutMessageLines(items: seq<CartLine>, totalCents: nat)
    requires |items| >= 1
    requires forall i :: 0 <= i < |items| ==> '\n' !in items[i].product.name
    ensures Split(CheckoutMessage(items, totalCents), '\n') ==
            [Greeting, ""] + OrderLines(items) + ["", "Total: $" + Fixed2(totalCents), "", Closing]
  {
    var head: seq<string> := [Greeting, ""];
    var lines := OrderLines(items);
    var tail := TailLines(totalCents);
    var all := head + lines + tail;
    MessageIsJoin(items, totalCents);
    NoBreakInParts(items, totalCents);
    forall i | 0 <= i < |all| ensures '\n' !in all[i] {
      if i < 2 {
        assert all[i] == head[i];
      } else if i < 2 + |lines| {
        assert all[i] == lines[i - 2];
      } else {
        assert all[i] == tail[i - 2 - |lines|];
      }
    }
    SplitJoin(all, '\n');
  }

  /** The amount after the `$` of an order line is the product's price times
      the quantity. (Item names hold no `$`.) */
  lemma OrderLineAmount(l: CartLine)
    requires '$' !in l.product.name
    ensures var parts := Split(OrderLine(l), '$');
            |parts| == 2 && CentsOf(parts[1]) == l.product.price * l.quantity
  {
    var front := l.product.name + " x" + NatToString(l.quantity) + " - ";
    NoPointInDigits(l.quantity);
    assert '$' !in NatToString(l.quantity) by {
      var q := NatToString(l.quantity);
      assert forall i :: 0 <= i < |q| ==> IsDecimalDigit(q[i]);
    }
    assert '$' !in front;
    NoBreakInFixed2(LineTotal(l));
    assert OrderLine(l) == Join([front, Fixed2(LineTotal(l))], '$');
    SplitJoin([front, Fixed2(LineTotal(l))], '$');
    Fixed2RoundTrip(LineTotal(l));
  }

  /** One rendered cart row with the requests its three buttons send. */
  datatype Row = Row(line: CartLine, itemTotal: string, minus: Request, plus: Request, remove: Request)

  function RowOf(l: CartLine): Row {
    Row(l, Fixed2(LineTotal(l)),
        UpdateQuantity(l.product.id, Decremented(l.quantity)),
        UpdateQuantity(l.product.id, Incremented(l.quantity)),
        RemoveFromCart(l.product.id))
  }

  /** The minus button never asks the store for a quantity below 1 (it asks for
      1 at quantity 1), the plus button asks for one more, and all three
      buttons address the row's own product. */
  lemma RowRequests(l: CartLine)
    ensures RowOf(l).minus.id == RowOf(l).plus.id == RowOf(l).remove.id == l.product.id
    ensures RowOf(l).minus.newQuantity >= 1
    ensures l.quantity <= 1 ==> RowOf(l).minus.newQuantity == 1
    ensures l.quantity > 1 ==> RowOf(l).minus.newQuantity == l.quantity - 1
    ensures RowOf(l).plus.newQuantity == l.quantity + 1
  {
    StepperRequests(l.quantity);
  }

  /** The page: an empty state with no controls, or the rows, the order
      summary (its `Items (n)` count, its total), the clear button's request
      and the checkout message. */
  datatype View =
    | EmptyCart
    | Filled(rows: seq<Row>, summaryCount: nat, summaryTotal: string, clear: Request, checkout: string)

  function Render(items: seq<CartLine>, totalCents: nat): (v: View)
    ensures v.EmptyCart? <==> |items| == 0
    ensures v.Filled? ==> |v.rows| == |items| && forall i :: 0 <= i < |items| ==> v.rows[i].line == items[i]
  {
    if |items| == 0 then EmptyCart
    else Filled(seq(|items|, i requires 0 <= i < |items| => RowOf(items[i])),
                |items|, Fixed2(totalCents), ClearCart, CheckoutMessage(items, totalCents))
  }

  function TotalQuantity(items: seq<CartLine>): nat {
    if |items| == 0 then 0 else items[0].quantity + TotalQuantity(items[1..])
  }

  /** The summary's `Items (n)` counts cart lines, not units: with every
      quantity at least 1 it never exceeds the number of units, and equals it
      exactly when every line holds a single unit. */
  lemma {:induction false} SummaryCountsLines(items: seq<CartLine>, totalCents: nat)
    requires |items| >= 1
    requires forall i :: 0 <= i < |items| ==> items[i].quantity >= 1
    ensures Render(items, totalCents).summaryCount == |items| <= TotalQuantity(items)
    ensures Render(items, totalCents).summaryCount == TotalQuantity(items) <==>
            forall i :: 0 <= i < |items| ==> items[i].quantity == 1
  {
    LinesAtMostUnits(items);
  }

  lemma {:induction false} LinesAtMostUnits(items: seq<CartLine>)
    requires forall i :: 0 <= i < |items| ==> items[i].quantity >= 1
    ensures |items| <= TotalQuantity(items)
    ensures |items| == TotalQuantity(items) <==> forall i :: 0 <= i < |items| ==> items[i].quantity == 1
  {
    if |items| > 0 {
      LinesAtMostUnits(items[1..]);
      if forall i :: 0 <= i < |items| ==> items[i].quantity == 1 {
        assert forall i :: 0 <= i < |items[1..]| ==> items[1..][i].quantity == 1 by {
          forall i | 0 <= i < |items[1..]| ensures items[1..][i].quantity == 1 {
            assert items[1..][i] == items[i + 1];
          }
        }
      }
    }
  }
}
