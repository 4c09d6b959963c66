# Storefront page logic, modelled in Dafny

This project models the logic inside the pages of a small React storefront:

- **Catalog page** (`src/pages/Products.js`). The filter-and-sort effect narrows the product catalog by category, by subcategory and by a case-insensitive search term. It then sorts the result in place with one of six comparators. The page also runs a flash-deal countdown.
- **FAQ page** (`src/pages/FAQ.js`). An accordion keeps a set of open question ids.
- **Cart page** (`src/pages/Cart.js`). Each cart row has quantity steppers and a remove button. The page has an empty state, an order summary and a checkout message.
- **Product page** (`src/pages/ProductDetail.js`). The page looks up a product by its route id, or shows a not-found view. It also has a three-entry gallery, a local quantity stepper, a row of rating stars, the add-to-cart request and the buy-now message.

Modules, one per concern:

- `Catalog` holds the product record. Prices are whole cents and ratings are tenths of a star.
- `Products`, `FlashDeal`, `Faq`, `CartPage` and `ProductDetail` follow the four pages.
- `Quantity` holds the `Math.max(1, q - 1)` / `q + 1` stepper that the cart page and the product page share.
- `CartRequests` lists the calls the pages make into the cart store. The store itself is not part of this model.
- `Strings` covers the JavaScript text operations the pages use: `toLowerCase` restricted to ASCII, `includes`, `join`, `toString`, `toFixed(2)` and `parseInt`. The pages never call `split`; `Strings.Split` is the model's own tool for reading the checkout message back line by line.
- `Wrappers` holds `Option`.

Most page logic is pure, so it is modelled as functions and lemmas. The sort is the exception: `Array.prototype.sort` reorders its array in place. It is therefore a method on an `array<Product>`, namely `Products.SortInPlace`. `Products.FilterAndSort` models the whole effect body. When no filter is active, `filtered` is the imported catalog array itself, so the method returns the catalog array and sorts it in place. When any filter is active, `filter` has produced a fresh array, and the catalog is left as it was. The effect reads like a pure filter-then-sort, but when no filter is active the code sorts the shared catalog in place (`src/pages/Products.js:44`, `65-88`). The model follows the code.

The countdown field that the source names `milliseconds` is stepped every 10 ms and runs from 99 to 0, so it counts hundredths of a second.

Because the FAQ toggle copies the set before changing it, it is a plain `set<int>` function, and the previous set is never touched. Checkout likewise only reads the items. Both facts hold by construction in the model.

## Model

| member | source | states |
|---|---|---|
| `Products.Where` | src/pages/Products.js:48 | `filter` keeps exactly the elements its predicate accepts and is never longer than its input |
| `Products.WhereMultiset` | src/pages/Products.js:47-61 | a filter keeps every copy of an accepted product and no copy of a rejected one |
| `Products.WhereWhere` | src/pages/Products.js:47-62 | two filters applied in a row equal one filter by the conjunction of their predicates |
| `Products.FilteredIsWhereAdmits` | src/pages/Products.js:44-62 | the category, subcategory and search chain, each stage skipped when inactive, equals one filter by "passes every active predicate" |
| `Products.FilteredContents` | src/pages/Products.js:44-62 | a product is shown iff it is in the catalog and passes every active predicate, with its catalog multiplicity; the shown count is at most the catalog count; the empty state appears iff no catalog product passes |
| `Products.NoFilterKeepsCatalog` | src/pages/Products.js:44 | when category and subcategory are `All` and the search term is empty, the chain yields the catalog itself |
| `Products.InitialCriteriaShowCatalog` | src/pages/Products.js:8-12 | on first render category and subcategory are `All`, the search term is empty and `featured` is selected, so the filter chain yields the whole catalog |
| `Products.MatchesSearchIff` | src/pages/Products.js:57-61 | the search predicate holds iff the lower-cased term occurs at some position of the lower-cased name or of the lower-cased description |
| `Products.SortKeyOfUnknown` | src/pages/Products.js:81-87 | any sort value other than the five named keys selects the featured comparator |
| `Products.PrecedesTotal` | src/pages/Products.js:66-87 | for every comparator, of two products one may stand before the other |
| `Products.PrecedesTransitive` | src/pages/Products.js:66-87 | every comparator orders products transitively, so a sorted order exists |
| `Products.SortedOrder` | src/pages/Products.js:66-87 | `price-low` gives non-decreasing prices; `price-high`, `rating`, `newest` and `discount` give non-increasing price, rating, id and discount; featured puts every hot product before every non-hot one and orders equal hotness by non-increasing rating |
| `Products.SortInPlace` | src/pages/Products.js:65-88 | after the in-place sort the array is ordered by the chosen comparator and is a permutation of its previous contents |
| `Products.FilterAndSort` | src/pages/Products.js:43-91 | the shown array is a sorted permutation of the filtered catalog; with a filter active it is fresh and the catalog is unchanged; with none active it is the catalog array itself, reordered in place; the catalog's multiset never changes |
| `Products.TwoSorted` | src/pages/Products.js:65-88 | two distinct products whose comparator is negative come out in that order under any sort |
| `Products.TwoProductScenario` | src/pages/Products.js:66-87 | a $10 non-hot 4.5-star product and a $5 hot 3.0-star product show as [hot, other] under featured and price-low and as [other, hot] under price-high |
| `Products.CardAddSendsShownProduct` | src/pages/Products.js:93-95 | a product card's "Add to Cart" sends `addToCart(product)` with the shown product unchanged and no quantity; that product is in the catalog and passes every active filter |
| `FlashDeal.Tick` | src/pages/Products.js:26-37 | one tick keeps minutes and seconds below 60 and hundredths below 100, takes exactly one hundredth off a running clock and leaves the all-zero clock unchanged |
| `FlashDeal.TotalZero` | src/pages/Products.js:36 | the time left is zero exactly at the all-zero clock |
| `FlashDeal.TicksCountDown` | src/pages/Products.js:25-38 | after n ticks the time left is the old time left minus n, floored at zero |
| `FlashDeal.TicksStayInRange` | src/pages/Products.js:25-38 | from an in-range clock, minutes and seconds stay below 60 and hundredths below 100 after any number of ticks |
| `FlashDeal.ExpiresAfterTotal` | src/pages/Products.js:25-38 | the clock reads all zeros after exactly as many ticks as it has hundredths left, not before, and stays there |
| `FlashDeal.StartExpires` | src/pages/Products.js:17-22 | the initial 11:16:09.52 clock is in range and expires after 4056952 ticks |
| `Faq.Toggle` | src/pages/FAQ.js:72-80 | after a toggle the id is open iff it was closed before, and every other id keeps its state |
| `Faq.ToggleTwice` | src/pages/FAQ.js:72-80 | toggling the same id twice restores the open set |
| `Faq.KeyDownEffect` | src/pages/FAQ.js:82-87 | Enter and Space flip the item's open state; any other key changes nothing; other ids are never affected |
| `Faq.ViewAfterToggle` | src/pages/FAQ.js:131-153 | initially no answer is shown and no button is expanded; `aria-expanded`, the chevron rotation and the answer panel all follow membership of the open set; a toggle flips exactly the toggled item's view |
| `Faq.ClicksParity` | src/pages/FAQ.js:72-80 | after any run of clicks an item is open iff its initial state was flipped an odd number of times |
| `Quantity.StepperRequests` | src/pages/Cart.js:163-177 | minus asks for at least 1, asks for exactly 1 at quantity 1 and otherwise q-1; plus asks for q+1; above 1 they undo each other |
| `Quantity.PressesStayPositive` | src/pages/ProductDetail.js:169-183 | starting from a quantity of at least 1, no run of stepper presses drives it below 1 or above the start plus the number of plus presses |
| `CartPage.MessageIsJoin` | src/pages/Cart.js:25-29 | the checkout message is the greeting, a blank line, the order lines, a blank line, the total line, a blank line and the closing, joined by line breaks |
| `CartPage.CheckoutMessageLines` | src/pages/Cart.js:23-29 | split at line breaks, the checkout message has exactly one order line per cart item, in cart order, between the fixed greeting and the `Total: $` line and closing |
| `CartPage.OrderLineAmount` | src/pages/Cart.js:26 | the amount after the `$` of an order line reads back as the item's price times its quantity |
| `CartPage.RowRequests` | src/pages/Cart.js:163-184 | each row's minus button asks the store for max(1, q-1), its plus button for q+1, and all three buttons name the row's own product id |
| `CartPage.Render` | src/pages/Cart.js:62-96 | an empty cart renders the empty state, which has no checkout or clear control; otherwise there is one row per item, in cart order |
| `CartPage.SummaryCountsLines` | src/pages/Cart.js:225 | whatever the order total, `Items (n)` is the number of cart lines; it is at most the number of units and equals it iff every quantity is 1 |
| `ProductDetail.FindIndex` | src/pages/ProductDetail.js:23 | the lookup returns the first catalog index whose id matches, or none when no product has that id |
| `ProductDetail.OpenShowsFirstMatch` | src/pages/ProductDetail.js:23-36 | the page shows the first product whose id equals the parsed route id, and the not-found view exactly when the id is `NaN` or matches nothing |
| `ProductDetail.RouteOpensProduct` | src/pages/ProductDetail.js:18-23 | with unique ids, the route written from any product's id, negative ones included, opens that product, even with non-digit text after the digits (other than an `x` after the id `0`, which selects radix 16) |
| `ProductDetail.ReachableStates` | src/pages/ProductDetail.js:95-98 | starting from index 0 and quantity 1, and whatever thumbnails and stepper buttons are pressed, the selected index stays a gallery index, the main image is the product's image, and the quantity stays at least 1 |
| `ProductDetail.AddToCartSendsProduct` | src/pages/ProductDetail.js:38-40 | "Add to Cart" sends the displayed product unchanged with its `quantity` set to the selected quantity, which is at least 1 |
| `ProductDetail.FilledStars` | src/pages/ProductDetail.js:129-137 | the number of filled stars is min(5, floor(rating)) |
| `ProductDetail.BuyNowNamesProduct` | src/pages/ProductDetail.js:42-44 | the buy-now message contains the product's name and its printed price, and that price reads back as the product's price |
| `Strings.IncludesIff` | src/pages/Products.js:59-60 | `includes` succeeds iff the needle occurs at some position of the text |
| `Strings.SplitJoin` | src/pages/Cart.js:27 | splitting a `join` at its separator gives back the parts when no part contains the separator |
| `Strings.NatToString` | src/pages/Cart.js:26 | a non-negative integer prints as a non-empty run of decimal digits with no leading zero |
| `Strings.NatToStringValue` | src/pages/Cart.js:26 | the printed digits read back as the number |
| `Strings.Fixed2RoundTrip` | src/pages/Cart.js:29 | `toFixed(2)` of a whole number of cents reads back as the same cents |
| `Strings.PriceTextRoundTrip` | src/pages/ProductDetail.js:44 | a price printed the way JavaScript prints a number reads back as the same cents |
| `Strings.ParseIntNatToString` | src/pages/ProductDetail.js:23 | `parseInt` reads back a printed non-negative id and ignores non-digit text after it, except an `x` after a lone `0`, which selects radix 16 |
| `Strings.ParseIntIntText` | src/pages/ProductDetail.js:23 | `parseInt` reads back any printed integer id, a leading minus sign included, and ignores non-digit text after it, except an `x` after a lone `0` |
| `Strings.DigitsPrefix` | src/pages/ProductDetail.js:23 | `parseInt` reads the longest run of digits of its radix that begins the text |

## Left out

- The cart store (`src/context/CartContext.js`) and the catalog data (`src/data/products.js`) are not part of this model. The catalog is an input sequence or array, and the cart is an input sequence of lines. `getTotalPrice()` is a parameter. The cart store's work is represented by the requests the pages send it (`CartRequests.Request`), so what `addToCart`, `updateQuantity`, `removeFromCart` and `clearCart` then do is not modelled. The subcategory option list depends on the catalog data and is left out too.
- `CartPage.CartLine`: its quantity is a `nat`. That the store keeps it at least 1 is assumed only where a lemma says so.
- Floating point is not modelled. Prices are whole cents and ratings are tenths of a star. `toFixed(2)` becomes exact two-decimal printing of cents, and `Math.floor(rating)` becomes integer division by 10. Binary rounding of prices such as 0.1 + 0.2, and prices with more than two decimals, are not modelled.
- `Strings.Lower`: only ASCII letters are lower-cased. Unicode case mapping is not modelled.
- `Strings.ParseInt`: only ASCII white space is skipped, and numbers beyond 2^53 are not rounded as JavaScript would round them.
- `Products.SortInPlace` states the order and the permutation only. The engine's sort algorithm and its stability (equal keys keeping catalog order) belong to the JavaScript engine and are not modelled. The method itself is an insertion sort.
- `Products.FilterAndSort` models one run of the effect. The intermediate arrays of a multi-stage filter are not modelled, since only the last one is shown.
- Scheduling and framework state are not modelled. This covers `setInterval`/`clearInterval` around the countdown, React's `useState`/`useEffect` re-rendering, and the `setTimeout` and asynchronous submit of the contact page. Only the pure tick and the value transitions are modelled.
- The countdown's `padStart(2, '0')` display is presentation only and is left out.
- Foreign calls and I/O are not modelled: `window.open`, `encodeURIComponent`, the WhatsApp URLs and phone number, `preventDefault` and `console.log`.
- Pages and components without modellable logic are left out: `src/pages/About.js`, `src/pages/Contact.js`, `src/components/Footer.js`, `src/components/Header.js` and `src/App.js`. So are animations and page metadata in every file.
