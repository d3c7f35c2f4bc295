/** The records the storefront works on. The catalog itself (`laptops`)
    is an input sequence of `Laptop`s; the cart store is not modelled and
    its items arrive as `CartItem`s. */
module Catalog {
  import opened Wrappers

  /** A product of the static catalog: prices are whole Kenyan shillings;
      `originalPrice` is present only on discounted products. */
  datatype Laptop = Laptop(
    id: string,
    slug: string,
    name: string,
    brand: string,
    priceKES: nat,
    originalPrice: Option<nat>,
    inStock: bool)

  /** A line of the cart as the cart store hands it out. */
  datatype CartItem = CartItem(id: string, name: string, priceKES: nat, quantity: nat)

  /** What `Number(text)` yields for a form field: an integer, or `NaN`.
      Only non-zero numbers are truthy. */
  datatype NumberValue = Finite(value: int) | NaN

  predicate Truthy(n: NumberValue) {
    n.Finite? && n.value != 0
  }
}
