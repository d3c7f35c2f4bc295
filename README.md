# Laptop WhatsApp storefront: a Dafny model

This project models the logic of a small laptop shop that sells through
WhatsApp chats. A shopper's choices are turned into text, and the text
into a `https://wa.me/<phone>?text=<message>` deep link. The model covers:

- **The link builder** (`WhatsApp`, `UriComponent`). `buildWhatsAppLink`
  percent-encodes the message with ECMAScript `encodeURIComponent`
  (section 19.2.6.4 of ECMA-262): UTF-8 bytes as upper-case `%XX`
  triplets (section 3 of RFC 3629), with ECMA-262's `uriUnreserved`
  characters (the unreserved characters of section 2.3 of RFC 3986 plus
  `! * ' ( )`) left as they are.
  The partner is a `decodeURIComponent`-style decoder. It gives the round
  trip, injectivity, and the alphabet of the encoded text.
- **The quote cart page** (`QuoteCart`). It builds the order message for
  a sequence of cart items, a subtotal, an optional name and an optional
  note. It also clamps typed quantities to at least one.
- **The cart drawer** (`DrawerCart`). It builds the checkout message and
  link. It also covers the count badge, the empty and non-empty panels,
  and the `-`, `+` and `✕` requests each item row sends to the cart store.
- **The browse page** (`Products`, `UrlParams`, `Sorting`). This covers
  the filter conjunction, the sort orders, the brand list and the price
  range. It also covers `updateURL`'s rule for the query string and the
  "Clear all" condition.
- **The compare page** (`Compare`). This covers the toggle, the `?add=`
  effect, slug resolution and the three-product display cap.
- **The product card** (`ProductCard`). This covers the in-cart test, the
  add guard, the discount amount and percentage, and the add button's
  enabled state.

`Text` holds the string helpers the pages rely on:
- the decimal and English thousands-grouped renderings of whole numbers
  (`String(n)`, `n.toLocaleString()`);
- `join` and `split` on a one-character separator;
- ASCII lower-casing, substring search, and code-point string order.

`Seqs` holds `filter` (`Where`), subsequences and duplicate-freedom.

Some of the page works by changing things step by step, and those parts
are imperative Dafny:
- `updateURL` walks its updates and deletes or sets keys in a parameter
  map (`UrlParams.UpdateURL`, a loop over a `map` with its invariant).
- `result.sort(...)` sorts a copied array in place
  (`Sorting.SortInPlace`, an insertion sort on an `array`). It is proved
  equal to the stable functional sort `Sorting.SortBy`.

Everything else is pure and is modelled as functions and lemmas.

Inputs the code takes from its environment become parameters:
- the catalog (`laptops`) is a `seq<Laptop>`;
- the cart store's items, total and item count;
- the outcomes of the stock simulation's `Math.random() > 0.3` draws
  (`draws: seq<bool>`, one per catalog position);
- the collation behind `localeCompare` (`collate`);
- the `Intl.NumberFormat('en-KE', KES)` currency formatter (`fmt`);
- the current query string, a `map<string, string>`.

An empty catalog's `Math.min()` and `Math.max()` are `+Infinity` and
`-Infinity` (`Products.Extended`).

The model follows the code in two places where a reader might expect
otherwise:
- An empty quote cart sends the fixed inquiry
  "Hello, I would like to inquire about laptops.", which carries no
  subtotal line (`QuoteCart.EmptyCartInquiry`). Only a non-empty cart's
  message mentions the subtotal (`QuoteCart.MentionsSubtotal`).
- The drawer's checkout opens a chat with 254700000000, not with the
  store's number 254720363215 that every other link uses
  (`DrawerCart.CheckoutMissesStorePhone`).

## Model

| member | source | states |
|---|---|---|
| WhatsApp.BuildWhatsAppLink | laptop-whatsapp-store/components/whatsapp.tsx:4-9 | the link starts with `https://wa.me/254720363215?text=`, the rest is the encoded message, and reading the link's text back yields exactly the message |
| WhatsApp.LinkInjective | laptop-whatsapp-store/components/whatsapp.tsx:6-9 | two messages give the same link if and only if they are the same message |
| WhatsApp.LinkTextIsOneQueryValue | laptop-whatsapp-store/components/whatsapp.tsx:7-8 | after the prefix, the link holds no space, newline, `&`, `=`, `#`, `+`, `?` or `/`, so the message is one query value |
| WhatsApp.WhatsAppButtonHref | laptop-whatsapp-store/components/whatsapp.tsx:11-12 | the button's link has the store prefix and carries exactly its message |
| WhatsApp.AboutPageLink | app/about/page.tsx:91 | the link hard-coded on the about page is what the builder produces for "Hello! I need help choosing a laptop." |
| UriComponent.DecodeEncode | laptop-whatsapp-store/components/whatsapp.tsx:7 | decoding the encoding of any message gives the message back |
| UriComponent.EncodeInjective | laptop-whatsapp-store/components/whatsapp.tsx:7 | distinct messages have distinct encodings |
| UriComponent.EncodeAvoidsDelimiters | laptop-whatsapp-store/components/whatsapp.tsx:7 | every encoded character is unreserved or a `%`, and none is a space, newline or query delimiter |
| UriComponent.EncodedFormAlphabet | laptop-whatsapp-store/components/whatsapp.tsx:7 | in encoded text every `%` is followed by two upper-case hex digits, and every other character is unreserved |
| UriComponent.EncodeAppend | laptop-whatsapp-store/components/whatsapp.tsx:7 | encoding works character by character: the encoding of a concatenation is the concatenation of the encodings |
| UriComponent.EncodeUnreserved | laptop-whatsapp-store/components/whatsapp.tsx:7 | text made of unreserved characters is left unchanged |
| UriComponent.EncodeSpace | laptop-whatsapp-store/components/whatsapp.tsx:7 | a space becomes `%20` |
| UriComponent.EncodeLineBreak | laptop-whatsapp-store/components/whatsapp.tsx:7 | a newline becomes `%0A` |
| UriComponent.EncodeComma | laptop-whatsapp-store/components/whatsapp.tsx:7 | a comma becomes `%2C` |
| UriComponent.EncodeDash | laptop-whatsapp-store/components/whatsapp.tsx:7 | the em dash of the quote lines becomes its three UTF-8 bytes `%E2%80%94` |
| UriComponent.EncodeBullet | laptop-whatsapp-store/components/whatsapp.tsx:7 | the bullet of the quote lines becomes `%E2%80%A2` |
| Text.DigitsRoundTrip | laptop-whatsapp-store/components/Cart.tsx:23 | the decimal rendering of a quantity denotes that quantity |
| Text.DigitsInjective | laptop-whatsapp-store/components/Cart.tsx:23 | distinct numbers are rendered differently |
| Text.GroupStripsToDigits | app/cart/page.tsx:13 | a grouped amount with its commas removed is the amount's decimal form |
| Text.GroupIsWellGrouped | app/cart/page.tsx:13 | a grouped amount has a first group of one to three digits, then groups of exactly three, with no leading zero unless the amount is 0 |
| Text.GroupAlphabet | app/cart/page.tsx:13 | a grouped amount is made of digits and commas only |
| Text.GroupInjective | app/cart/page.tsx:16 | distinct amounts are grouped differently |
| Text.SplitJoin | app/cart/page.tsx:16 | joining lines that contain no separator and splitting the result gives the lines back |
| Text.LowerIdempotent | laptop-whatsapp-store/app/products/page.tsx:80-81 | lower-casing twice is the same as lower-casing once |
| Text.LexLeTotal | laptop-whatsapp-store/app/products/page.tsx:46 | the default string order compares any two strings |
| Text.LexLeTransitive | laptop-whatsapp-store/app/products/page.tsx:46 | the default string order is transitive |
| Text.LexLeAntisymmetric | laptop-whatsapp-store/app/products/page.tsx:46 | strings ordered both ways are equal |
| QuoteCart.QuoteHref | app/cart/page.tsx:19 | the order button links to the store's number, and the link carries exactly the message |
| QuoteCart.EmptyCartInquiry | app/cart/page.tsx:12 | an empty cart sends the fixed inquiry whatever the name, note and total, and that inquiry has no subtotal |
| QuoteCart.GreetingNamesTheShopper | app/cart/page.tsx:14-16 | a non-empty cart's message greets with `Hello, I'm <name>.` exactly when a name was entered |
| QuoteCart.ClosesWithConfirmation | app/cart/page.tsx:12-16 | the message ends with the request to confirm availability and delivery exactly when the cart has items, and then it ends with subtotal, notes and that request |
| QuoteCart.MentionsSubtotal | app/cart/page.tsx:16 | a non-empty cart's message contains `Subtotal: KES <grouped total>` |
| QuoteCart.MessageLines | app/cart/page.tsx:11-17 | for single-line name, note and item names, the message's lines are the greeting, one `• <name> x<qty> — KES <price>` line per item in cart order, the subtotal, a notes line exactly when a note was entered, and the closing line |
| QuoteCart.LineCount | app/cart/page.tsx:13-16 | such a message has one line per item plus three, and one more when a note was entered |
| QuoteCart.ClampQuantity | app/cart/page.tsx:39 | the quantity is at least 1; a typed number of at least 1 is kept, and 0, empty, NaN or negative input gives 1 |
| DrawerCart.CheckoutUrl | laptop-whatsapp-store/components/Cart.tsx:20-26 | the opened address is `https://wa.me/254700000000?text=` followed by the encoded order text |
| DrawerCart.CheckoutRoundTrip | laptop-whatsapp-store/components/Cart.tsx:21-26 | reading the opened chat's text back yields exactly the order text |
| DrawerCart.CheckoutMissesStorePhone | laptop-whatsapp-store/components/Cart.tsx:26 | the checkout address is not a link to the store's number, and differs from the store button's link for the same text |
| DrawerCart.CheckoutInjective | laptop-whatsapp-store/components/Cart.tsx:20-26 | two checkouts open the same address if and only if their order texts are equal |
| DrawerCart.CheckoutLines | laptop-whatsapp-store/components/Cart.tsx:21-25 | for single-line names and prices, the order text's lines are the lead, one `<qty>x <name> - <price>` line per item in cart order, a blank line and the total |
| DrawerCart.BadgeWhenItems | laptop-whatsapp-store/components/Cart.tsx:29-41 | the closed drawer shows a count badge exactly when the item count is positive, and the badge shows that count |
| DrawerCart.CheckoutOnlyWithItems | laptop-whatsapp-store/components/Cart.tsx:58-117 | the open drawer shows the items and the checkout exactly when the cart has items, and the empty state otherwise; the checkout opens the order chat |
| DrawerCart.RowButtons | laptop-whatsapp-store/components/Cart.tsx:74-100 | row `i` shows item `i`, and its buttons ask for one less, one more, or removal of exactly that item's id |
| ProductCard.IsInCart | laptop-whatsapp-store/components/ProductCard.tsx:16 | in the cart exactly when some cart item has the product's id |
| ProductCard.HandleAddToCart | laptop-whatsapp-store/components/ProductCard.tsx:18-22 | the product is handed to the cart store exactly when it is not in the cart |
| ProductCard.NoSecondAdd | laptop-whatsapp-store/components/ProductCard.tsx:16-22 | once an item with the product's id is in the cart, clicking adds nothing |
| ProductCard.DiscountAmount | laptop-whatsapp-store/components/ProductCard.tsx:35 | the saving is 0 without an original price, and the original price less the price otherwise |
| ProductCard.DiscountPercentage | laptop-whatsapp-store/components/ProductCard.tsx:36 | the percentage is 0 without an original price, and otherwise the whole number nearest to 100 × saving / original price, halves rounded up |
| ProductCard.PercentageInRange | laptop-whatsapp-store/components/ProductCard.tsx:35-36 | for a price no higher than the original, the percentage lies in 0..100 |
| ProductCard.BadgeThreshold | laptop-whatsapp-store/components/ProductCard.tsx:57 | the discount badge shows exactly when the saving is at least half a percent of the original price |
| ProductCard.EnabledButtonAdds | laptop-whatsapp-store/components/ProductCard.tsx:166-177 | the button reads "Add to Cart" exactly when it is enabled, that is, when the product is in stock and not in the cart; then a click adds the product |
| Products.FilterCatalog | laptop-whatsapp-store/app/products/page.tsx:75-89 | the result is no longer than the catalog, and every product in it is from the catalog and passes search, brand and both bounds |
| Products.FilterWithoutStock | laptop-whatsapp-store/app/products/page.tsx:78-89 | without "in stock only", the result is the catalog's products passing every filter, in catalog order |
| Products.FilterWithStock | laptop-whatsapp-store/app/products/page.tsx:78-89 | with the stock simulation, the result is an order-preserving subsequence of those products, and all of them when every draw succeeds |
| Products.FiltersCompose | laptop-whatsapp-store/app/products/page.tsx:79-88 | applying search, brand, minimum and maximum one after another selects the same products as their conjunction |
| Products.FiltersCommute | laptop-whatsapp-store/app/products/page.tsx:79-88 | applying the price bounds first, then search and brand, selects the same products |
| Products.InactiveFiltersKeepAll | laptop-whatsapp-store/app/products/page.tsx:79-86 | with an empty search and brand, bounds that are empty or 0, and stock unticked, every product is kept in order |
| Products.UnknownBrandShowsNothing | laptop-whatsapp-store/app/products/page.tsx:83 | a brand no product has leaves nothing to show |
| Products.SearchIgnoresCase | laptop-whatsapp-store/app/products/page.tsx:79-81 | the search does not depend on the query's case, and it finds a product by its own name or brand |
| Products.PriceWindow | laptop-whatsapp-store/app/products/page.tsx:84-85 | non-zero bounds admit exactly the prices from the minimum to the maximum, both included |
| Products.FilteredProducts | laptop-whatsapp-store/app/products/page.tsx:74-109 | the listing is a permutation of the filtered products; it is non-decreasing in price for `price-asc` and non-increasing for `price-desc`; it keeps the filtered order for `newest` and every unknown key |
| Products.PriceComparatorsConsistent | laptop-whatsapp-store/app/products/page.tsx:92-97 | both price comparators are consistent comparators in the sense of section 23.1.3.30 of ECMA-262 |
| Products.NameSortsFollowCollation | laptop-whatsapp-store/app/products/page.tsx:98-101 | for a consistent collation, the name sorts leave names in ascending or descending collation order |
| Products.PriceSortsAreStable | laptop-whatsapp-store/app/products/page.tsx:92-97 | products at the same price keep their relative catalog order under both price sorts |
| Products.Dedup | laptop-whatsapp-store/app/products/page.tsx:45 | the set of brands holds each brand once, and exactly the brands of the list |
| Products.StringCompareConsistent | laptop-whatsapp-store/app/products/page.tsx:46 | the default `sort()` order on strings is a consistent comparator |
| Products.BrandsOrdered | laptop-whatsapp-store/app/products/page.tsx:44-47 | the brand list has no duplicates and is strictly increasing |
| Products.BrandsComplete | laptop-whatsapp-store/app/products/page.tsx:44-47 | the brand list, built from the catalog's brand column, holds a brand exactly when some laptop has it |
| Products.MinPrice | laptop-whatsapp-store/app/products/page.tsx:49-55 | `+Infinity` exactly for an empty catalog, otherwise a price of the catalog that no price is below |
| Products.MaxPrice | laptop-whatsapp-store/app/products/page.tsx:49-55 | `-Infinity` exactly for an empty catalog, otherwise a price of the catalog that no price is above |
| Products.PriceRangeBounds | laptop-whatsapp-store/app/products/page.tsx:49-55 | every laptop's price lies within the displayed range |
| Products.ClearFilters | laptop-whatsapp-store/app/products/page.tsx:148-165 | after "Clear all" no filter is active |
| Products.NoActiveFilterListsCatalog | laptop-whatsapp-store/app/products/page.tsx:74-165 | with no active filter and the search settled, the page lists the whole catalog in catalog order |
| Sorting.InsertLastAdds | laptop-whatsapp-store/app/products/page.tsx:92 | one insertion step adds exactly the inserted element |
| Sorting.SortIsPermutation | laptop-whatsapp-store/app/products/page.tsx:92-106 | sorting neither adds nor loses an element |
| Sorting.SortIsSorted | laptop-whatsapp-store/app/products/page.tsx:92-106 | under a consistent comparator, no element is followed by one the comparator puts before it |
| Sorting.SortKeepsSorted | laptop-whatsapp-store/app/products/page.tsx:102-104 | an already sorted list, such as any list under the all-zero `newest` comparator, is left as it is |
| Sorting.SortIsStable | laptop-whatsapp-store/app/products/page.tsx:92-106 | elements the comparator ties keep their relative order |
| Sorting.SortInPlace | laptop-whatsapp-store/app/products/page.tsx:92 | after the in-place sort, the array holds the stable sort of its old contents |
| Sorting.InsertAt | laptop-whatsapp-store/app/products/page.tsx:92 | one round of the in-place sort leaves the prefix as one insertion step places the new element, and the rest untouched |
| UrlParams.UpdateURL | laptop-whatsapp-store/app/products/page.tsx:58-67 | the loop leaves the parameters the updates give when applied in order |
| UrlParams.ApplyEffect | laptop-whatsapp-store/app/products/page.tsx:61-67 | with distinct keys, an updated key is deleted for `''`, `null` or `false` and set to `String(value)` otherwise, and every other key keeps what it had |
| UrlParams.SingleUpdate | laptop-whatsapp-store/app/products/page.tsx:62-66 | after one update, its key reads as deleted or set, and every other key is unchanged |
| UrlParams.ParseIntString | laptop-whatsapp-store/app/products/page.tsx:27-28 | `Number(String(i))` is `i` for every integer written to the price parameters (the page's doubles agree for safe integers) |
| UrlParams.RecordedStateFiltersAlike | laptop-whatsapp-store/app/products/page.tsx:24-38 | a state recorded in the query string and the state read back from it select the same products, sort alike and agree on "Clear all" |
| UrlParams.BrandKeepsRecord | laptop-whatsapp-store/app/products/page.tsx:112-116 | after a brand change, the query string records the new state |
| UrlParams.SearchKeepsRecord | laptop-whatsapp-store/app/products/page.tsx:118-122 | after a search change, the query string records the new state |
| UrlParams.MinKeepsRecord | laptop-whatsapp-store/app/products/page.tsx:124-128 | after a minimum-price change, the query string records the new state |
| UrlParams.MaxKeepsRecord | laptop-whatsapp-store/app/products/page.tsx:130-134 | after a maximum-price change, the query string records the new state |
| UrlParams.SortKeepsRecord | laptop-whatsapp-store/app/products/page.tsx:136-140 | after a sort change, the query string records the new state |
| UrlParams.InStockKeepsRecord | laptop-whatsapp-store/app/products/page.tsx:142-146 | after ticking or unticking "in stock only", the query string records the new state |
| UrlParams.ClearedParams | laptop-whatsapp-store/app/products/page.tsx:155-162 | after "Clear all", the query string holds `sort=newest` and none of the other filter keys |
| UrlParams.ClearKeepsRecord | laptop-whatsapp-store/app/products/page.tsx:148-163 | after "Clear all", the query string records the cleared state, and a reload shows no active filter |
| UrlParams.InactiveIffCleared | laptop-whatsapp-store/app/products/page.tsx:165 | "Clear all" is hidden exactly when every control is at its cleared value |
| Compare.Toggle | app/compare/page.tsx:18-20 | an unselected slug is appended at the end of the selection; a selected one has every copy removed, the other slugs keeping their order and counts; either way the toggled slug's membership flips and every other slug keeps its own |
| Compare.ToggleDistinct | app/compare/page.tsx:19 | toggling keeps a duplicate-free selection duplicate-free |
| Compare.ToggleTwice | app/compare/page.tsx:19 | toggling an unselected slug twice gives the selection back |
| Compare.ToggleOffKeepsOrder | app/compare/page.tsx:19 | removing a slug keeps the others in their order |
| Compare.AddEffect | app/compare/page.tsx:9-14 | a missing, empty or already selected `add` changes nothing; any other is appended |
| Compare.AddEffectDistinctAndIdempotent | app/compare/page.tsx:9-14 | the effect keeps the selection duplicate-free, and running it again changes nothing |
| Compare.Find | app/compare/page.tsx:16 | a product is found exactly when some catalog product has the slug; the found product has that slug and is the first such product in catalog order |
| Compare.ResolveSlugs | app/compare/page.tsx:16 | the resolved products carry exactly the selected slugs that name a product, in selection order |
| Compare.ResolveComplete | app/compare/page.tsx:16 | every selected slug with a product contributes that product |
| Compare.Shown | app/compare/page.tsx:40 | at most three products are shown, the first ones of the selection |

## Left out

- The cart store (`contexts/CartContext`) is not part of this model.
  Its items, total and item count are inputs, and the drawer's requests
  to it are values (`DrawerCart.CartRequest`).
- React state, hooks and rendering beyond the values shown are left out.
  So are the 300 ms search debounce, `router.replace` and `router.push`,
  `window.open`, Next.js links and images, and the star rendering of
  ratings.
- The stock simulation is nondeterministic. It is the `draws` parameter,
  one draw per catalog position. The code never reads a laptop's own
  `inStock` flag when filtering, and neither does the model.
- `Products.NameSortsFollowCollation`: `localeCompare` is the `collate`
  parameter, and the lemma assumes it is consistent. Locale collation
  rules are not modelled.
- `Products.StringCompareConsistent`: the default `sort()` compares
  UTF-16 code units; the model compares code points. The two differ only
  between characters above U+FFFF and characters from U+E000 to U+FFFF.
- `Intl.NumberFormat('en-KE', KES)` in the drawer is the `fmt`
  parameter. `toLocaleString()` is modelled as English grouping of whole
  numbers (`Text.Group`).
- `Text.LowerIdempotent`: `toLowerCase` is modelled on ASCII letters
  only. Unicode case mapping is left out.
- `ProductCard.DiscountPercentage`: the percentage is computed in exact
  arithmetic. Floating-point rounding of the quotient before
  `Math.round` is left out.
- Prices, totals and quantities are unbounded whole numbers, while the
  page holds them as IEEE doubles. Amounts are taken to be safe integers,
  below 2^53: the precision a double loses above that is not modelled,
  nor the exponent notation (`1e+21`) that `String(n)` switches to from
  10^21 on. `Text.Digits`, `Text.IntString`, `Text.Group` and
  `UrlParams.ParseIntString` describe the page only within that range.
- Fractional quantities and totals are left out. `NaN` appears only as a value a
  number input can hold.
- `UrlParams.ParseIntString`: `Number(text)` is modelled for an optional
  minus sign followed by decimal digits. Every other text is `NaN`, so
  fractions, exponents, spaces and hexadecimal are not modelled. The
  round trip is proved for every integer, but describes the page only for
  safe integers, below 2^53 in magnitude.
- `URLSearchParams` is a map from key to one value. Key order,
  repeated keys and serialisation are left out.
- `Compare.AddEffect`: the effect's test against the selection of the
  rendering that scheduled it, and its append to the latest selection,
  are modelled as the same selection. The "up to 3" limit is only
  displayed (`Compare.Shown`) and never enforced on the selection.
- `Sorting.SortIsSorted`: for an inconsistent comparator the order of
  `Array.prototype.sort` is implementation-defined. The model fixes one
  order, that of a stable insertion sort.
- Messages are strings of Unicode scalar values, so lone UTF-16
  surrogates, on which `encodeURIComponent` throws, cannot occur.
- The about page and the layout are static markup. The about page's
  hard-coded link is used only as a test vector (`WhatsApp.AboutPageLink`).
  Configuration files are not modelled.
