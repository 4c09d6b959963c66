/** The calls the pages make into the shared cart store. The store's own
    behaviour is not part of this model; a page's effect on the cart is the
    request it issues. */
module CartRequests {
  import opened Wrappers
  import opened Catalog

  /** `addToCart` receives the product record, with a `quantity` field when the
      caller spread one in; the other requests carry an id. */
  datatype Request =
    | AddToCart(product: Product, quantity: Option<int>)
    | UpdateQuantity(id: int, newQuantity: int)
    | RemoveFromCart(id: int)
    | ClearCart
}
