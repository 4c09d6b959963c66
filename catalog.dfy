/** The product record the pages read from the static catalog. Money is kept
    in whole cents and ratings in tenths of a star, so that every comparison
    and total is exact. */
module Catalog {
  import opened Wrappers

  datatype Product = Product(
    id: int,
    name: string,
    description: string,
    price: nat,                   // cents
    originalPrice: Option<nat>,   // cents, present only on sale items
    category: string,
    subcategory: string,
    rating: nat,                  // tenths of a star, 0..50
    reviews: nat,
    discount: nat,                // percent
    isOnSale: bool,
    isNew: bool,
    isHot: bool,
    shipping: string,
    features: seq<string>,
    image: string)

  /** No two catalog entries share an id. */
  predicate UniqueIds(catalog: seq<Product>) {
    forall i, j :: 0 <= i < j < |catalog| ==> catalog[i].id != catalog[j].id
  }
}
