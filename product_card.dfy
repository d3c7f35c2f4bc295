/** `components/ProductCard.tsx`: the in-cart test, the add guard, the
    discount figures and the add button's state. The cart's items are an
    input; `addToCart` is a request the card may make. */
module ProductCard {
  import opened Wrappers
  import opened Catalog

  /** `cartItems.some(item => item.id === product.id)`. */
  function IsInCart(cart: seq<CartItem>, product: Laptop): (r: bool)
    ensures r <==> exists i :: 0 <= i < |cart| && cart[i].id == product.id
    decreases |cart|
  {
    if cart == [] then false
    else
      assert forall i :: 1 <= i < |cart| ==> cart[i] == cart[1..][i - 1];
      cart[0].id == product.id || IsInCart(cart[1..], product)
  }

  /** `handleAddToCart`: the product to hand to `addToCart`, or nothing. */
  function HandleAddToCart(cart: seq<CartItem>, product: Laptop): (r: Option<Laptop>)
    ensures r.Some? <==> !IsInCart(cart, product)
    ensures r.Some? ==> r.value == product
  {
    if !IsInCart(cart, product) then Some(product) else None
  }

  /** Once the cart holds an item with the product's id, clicking again
      requests nothing, so the card never adds a product twice. */
  lemma NoSecondAdd(cart: seq<CartItem>, product: Laptop, item: CartItem)
    requires item in cart && item.id == product.id
    ensures HandleAddToCart(cart, product) == None
  {
    var i :| 0 <= i < |cart| && cart[i] == item;
  }

  /** `originalPrice - priceKES` when an original price is set (and non-zero). */
  function DiscountAmount(product: Laptop): (d: int)
    ensures product.originalPrice.None? || product.originalPrice.value == 0 ==> d == 0
    ensures product.originalPrice.Some? && product.originalPrice.value != 0 ==>
      d == product.originalPrice.value - product.priceKES
  {
    match product.originalPrice
    case Some(o) => if o != 0 then o - product.priceKES else 0
    case None => 0
  }

  /** `Math.round(discountAmount / originalPrice * 100)`, in exact
      arithmetic: the nearest whole percentage, halves rounded up. */
  function DiscountPercentage(product: Laptop): (pct: int)
    ensures product.originalPrice.None? || product.originalPrice.value == 0 ==> pct == 0
    ensures product.originalPrice.Some? && product.originalPrice.value != 0 ==>
      var o := product.originalPrice.value;
      2 * o * pct <= 200 * DiscountAmount(product) + o < 2 * o * (pct + 1)
  {
    match product.originalPrice
    case Some(o) => if o != 0 then (200 * DiscountAmount(product) + o) / (2 * o) else 0
    case None => 0
  }

  /** For a price between zero and the original price the percentage lies
      between 0 and 100. */
  lemma PercentageInRange(product: Laptop)
    requires product.originalPrice.Some? && product.priceKES <= product.originalPrice.value
    ensures 0 <= DiscountPercentage(product) <= 100
  {
    var o := product.originalPrice.value;
    if o != 0 {
      RoundedWithin(o, DiscountAmount(product), DiscountPercentage(product));
    }
  }

  lemma RoundedWithin(o: int, d: int, pct: int)
    requires o > 0 && 0 <= d <= o
    requires 2 * o * pct <= 200 * d + o < 2 * o * (pct + 1)
    ensures 0 <= pct <= 100
  {
    if pct > 100 {
      ScaleUp(2 * o, 101, pct);
    }
    if pct < 0 {
      ScaleUp(2 * o, pct + 1, 0);
    }
  }

  lemma ScaleUp(k: int, a: int, b: int)
    requires k > 0 && a <= b
    ensures k * a <= k * b
  {
    assert k * b - k * a == k * (b - a);
  }

  /** The red discount badge. */
  predicate ShowsDiscountBadge(product: Laptop) {
    DiscountPercentage(product) > 0
  }

  /** The badge appears exactly when the discount is at least half a
      percent of the original price. */
  lemma BadgeThreshold(product: Laptop)
    requires product.originalPrice.Some? && product.originalPrice.value != 0
    ensures ShowsDiscountBadge(product) <==> 200 * DiscountAmount(product) >= product.originalPrice.value
  {
    RoundedPositive(product.originalPrice.value, DiscountAmount(product), DiscountPercentage(product));
  }

  lemma RoundedPositive(o: int, d: int, pct: int)
    requires o > 0
    requires 2 * o * pct <= 200 * d + o < 2 * o * (pct + 1)
    ensures pct > 0 <==> 200 * d >= o
  {
    if pct > 0 {
      ScaleUp(2 * o, 1, pct);
    } else {
      ScaleUp(2 * o, pct + 1, 1);
    }
  }

  /** `disabled={isInCart || !product.inStock}`. */
  predicate AddDisabled(cart: seq<CartItem>, product: Laptop) {
    IsInCart(cart, product) || !product.inStock
  }

  /** The button's caption. */
  function AddLabel(cart: seq<CartItem>, product: Laptop): string {
    if IsInCart(cart, product) then "In Cart" else if !product.inStock then "Out of Stock" else "Add to Cart"
  }

  /** The button reads "Add to Cart" exactly when it is enabled, and an
      enabled button adds the product. */
  lemma EnabledButtonAdds(cart: seq<CartItem>, product: Laptop)
    ensures AddLabel(cart, product) == "Add to Cart" <==> !AddDisabled(cart, product)
    ensures !AddDisabled(cart, product) ==> HandleAddToCart(cart, product) == Some(product)
  {
  }
}
