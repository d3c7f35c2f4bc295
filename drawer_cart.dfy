/** `components/Cart.tsx`: the slide-out cart drawer. The cart store is an
    input (`cart`, `cartTotal`, `itemCount`); the currency formatter
    `Intl.NumberFormat('en-KE', KES)` is the parameter `fmt`. */
module DrawerCart {
  import opened Wrappers
  import opened Text
  import opened UriComponent
  import opened WhatsApp
  import opened Catalog

  /** The number the drawer's checkout opens a chat with. It is not the
      store's `Phone`. */
  const CheckoutPhone := "254700000000"

  // Written in two pieces so that the verifier does not unfold one long
  // literal; together they are the lead line of the checkout text.
  const CheckoutLead := "Hello! I'd " + "like to order:"
  const TotalLabel := "Total: "

  /** One item of the order: `<qty>x <name> - <price>`. */
  function DrawerLine(item: CartItem, fmt: int -> string): string {
    Digits(item.quantity) + "x " + item.name + " - " + fmt(item.priceKES)
  }

  function DrawerLines(cart: seq<CartItem>, fmt: int -> string): (lines: seq<string>)
    ensures |lines| == |cart|
    ensures forall i :: 0 <= i < |cart| ==> lines[i] == DrawerLine(cart[i], fmt)
  {
    seq(|cart|, i requires 0 <= i < |cart| => DrawerLine(cart[i], fmt))
  }

  /** The text `handleCheckout` encodes. */
  function CheckoutText(cart: seq<CartItem>, cartTotal: int, fmt: int -> string): string {
    CheckoutLead + "\n" + Join(DrawerLines(cart, fmt), "\n") + "\n\n" + TotalLabel + fmt(cartTotal)
  }

  /** The address `handleCheckout` opens. */
  function CheckoutUrl(cart: seq<CartItem>, cartTotal: int, fmt: int -> string): (url: string)
    ensures StartsWith(url, LinkPrefix(CheckoutPhone))
    ensures url[|LinkPrefix(CheckoutPhone)|..] == Encode(CheckoutText(cart, cartTotal, fmt))
  {
    var prefix := LinkPrefix(CheckoutPhone);
    var url := prefix + Encode(CheckoutText(cart, cartTotal, fmt));
    assert url[..|prefix|] == prefix;
    url
  }

  /** The chat opened by checkout carries exactly the order text. */
  lemma CheckoutRoundTrip(cart: seq<CartItem>, cartTotal: int, fmt: int -> string)
    ensures ReadText(CheckoutUrl(cart, cartTotal, fmt), CheckoutPhone) == Some(CheckoutText(cart, cartTotal, fmt))
  {
    DecodeEncode(CheckoutText(cart, cartTotal, fmt));
  }

  /** The checkout link does not reach the store's number used everywhere else. */
  lemma CheckoutMissesStorePhone(cart: seq<CartItem>, cartTotal: int, fmt: int -> string)
    ensures ReadText(CheckoutUrl(cart, cartTotal, fmt), Phone) == None
    ensures CheckoutUrl(cart, cartTotal, fmt) != WhatsAppButtonHref(CheckoutText(cart, cartTotal, fmt))
  {
    var url := CheckoutUrl(cart, cartTotal, fmt);
    assert url[18] == LinkPrefix(CheckoutPhone)[18] == '0';
    assert LinkPrefix(Phone)[18] == '2';
    ghost var href := WhatsAppButtonHref(CheckoutText(cart, cartTotal, fmt));
    assert href[18] == LinkPrefix(Phone)[18];
  }

  /** Distinct orders open distinct chats. */
  lemma CheckoutInjective(a: seq<CartItem>, b: seq<CartItem>, totalA: int, totalB: int, fmt: int -> string)
    ensures CheckoutUrl(a, totalA, fmt) == CheckoutUrl(b, totalB, fmt) <==>
      CheckoutText(a, totalA, fmt) == CheckoutText(b, totalB, fmt)
  {
    if CheckoutUrl(a, totalA, fmt) == CheckoutUrl(b, totalB, fmt) {
      EncodeInjective(CheckoutText(a, totalA, fmt), CheckoutText(b, totalB, fmt));
    }
  }

  /** The lines of the order text: the lead, one line per item in cart
      order, a blank line and the total, when names and formatted amounts
      are single lines. */
  lemma CheckoutLines(cart: seq<CartItem>, cartTotal: int, fmt: int -> string)
    requires |cart| > 0
    requires forall i :: 0 <= i < |cart| ==> Free(cart[i].name, '\n')
    requires forall x :: Free(fmt(x), '\n')
    ensures Split(CheckoutText(cart, cartTotal, fmt), '\n') ==
      [CheckoutLead] + DrawerLines(cart, fmt) + ["", TotalLabel + fmt(cartTotal)]
  {
    var lines := DrawerLines(cart, fmt);
    forall i | 0 <= i < |lines| ensures Free(lines[i], '\n') {
      assert lines[i] == Digits(cart[i].quantity) + "x " + cart[i].name + " - " + fmt(cart[i].priceKES);
    }
    var last := TotalLabel + fmt(cartTotal);
    assert Free(last, '\n');
    assert Free(CheckoutLead, '\n');
    assert CheckoutText(cart, cartTotal, fmt) == CheckoutLead + "\n" + Join(lines, "\n") + "\n\n" + last;
    CheckoutLayoutLines(CheckoutLead, lines, last);
  }

  lemma CheckoutLayoutLines(lead: string, lines: seq<string>, last: string)
    requires |lines| >= 1
    requires Free(lead, '\n') && Free(last, '\n')
    requires forall i :: 0 <= i < |lines| ==> Free(lines[i], '\n')
    ensures Split(lead + "\n" + Join(lines, "\n") + "\n\n" + last, '\n') == [lead] + lines + ["", last]
  {
    var body := Join(lines, "\n") + "\n" + ("\n" + last);
    calc {
      Split(lead + "\n" + Join(lines, "\n") + "\n\n" + last, '\n');
    == { CheckoutShape(lead, Join(lines, "\n"), last); }
      Split(lead + ['\n'] + body, '\n');
    == { SplitLine(lead, body, '\n'); }
      [lead] + Split(body, '\n');
    == { CheckoutBodyLines(lines, last); }
      [lead] + (lines + ["", last]);
    }
  }

  lemma CheckoutShape(lead: string, middle: string, last: string)
    ensures lead + "\n" + middle + "\n\n" + last == lead + ['\n'] + (middle + "\n" + ("\n" + last))
  {
    assert "\n\n" == "\n" + "\n";
  }

  /** The item lines, the blank line and the total line. */
  lemma CheckoutBodyLines(lines: seq<string>, last: string)
    requires |lines| >= 1 && Free(last, '\n')
    requires forall i :: 0 <= i < |lines| ==> Free(lines[i], '\n')
    ensures Split(Join(lines, "\n") + "\n" + ("\n" + last), '\n') == lines + ["", last]
  {
    TotalLines(last);
    SplitAround(Join(lines, ['\n']), "\n" + last, '\n');
    SplitJoin(lines, '\n');
  }

  /** A blank line, then the total line. */
  lemma TotalLines(last: string)
    requires Free(last, '\n')
    ensures Split("\n" + last, '\n') == ["", last]
  {
    assert "\n" + last == [] + ['\n'] + last;
    SplitAround([], last, '\n');
    SplitFree(last, '\n');
  }

  // ---------------------------------------------------------------------
  // What the drawer shows and what its buttons request

  /** A call the drawer makes into the cart store. */
  datatype CartRequest = UpdateQuantity(id: string, quantity: int) | RemoveFromCart(id: string)

  /** One item row: its text and the requests of its three buttons. */
  datatype ItemRow = ItemRow(name: string, price: string, quantity: nat,
                             minus: CartRequest, plus: CartRequest, remove: CartRequest)

  /** The drawer: the closed button with an optional count badge, the open
      drawer with an empty cart, or the open drawer's item rows, formatted
      total and the address its checkout button opens. */
  datatype DrawerView =
    | Closed(badge: Option<int>)
    | EmptyPanel
    | ItemsPanel(rows: seq<ItemRow>, total: string, checkout: string)

  function Row(item: CartItem, fmt: int -> string): ItemRow {
    ItemRow(item.name, fmt(item.priceKES), item.quantity,
            UpdateQuantity(item.id, item.quantity - 1),
            UpdateQuantity(item.id, item.quantity + 1),
            RemoveFromCart(item.id))
  }

  /** What `Cart` renders. */
  function Drawer(isOpen: bool, cart: seq<CartItem>, cartTotal: int, itemCount: int, fmt: int -> string): DrawerView {
    if !isOpen then Closed(if itemCount > 0 then Some(itemCount) else None)
    else if |cart| == 0 then EmptyPanel
    else ItemsPanel(seq(|cart|, i requires 0 <= i < |cart| => Row(cart[i], fmt)),
                    fmt(cartTotal), CheckoutUrl(cart, cartTotal, fmt))
  }

  /** The closed drawer shows the count badge exactly when the count is
      positive, and then shows the count. */
  lemma BadgeWhenItems(cart: seq<CartItem>, cartTotal: int, itemCount: int, fmt: int -> string)
    ensures Drawer(false, cart, cartTotal, itemCount, fmt).Closed?
    ensures Drawer(false, cart, cartTotal, itemCount, fmt).badge.Some? <==> itemCount > 0
    ensures itemCount > 0 ==> Drawer(false, cart, cartTotal, itemCount, fmt).badge == Some(itemCount)
  {
  }

  /** The open drawer offers checkout exactly when the cart has items, and
      the checkout opens the order chat. */
  lemma CheckoutOnlyWithItems(cart: seq<CartItem>, cartTotal: int, itemCount: int, fmt: int -> string)
    ensures Drawer(true, cart, cartTotal, itemCount, fmt).ItemsPanel? <==> |cart| > 0
    ensures Drawer(true, cart, cartTotal, itemCount, fmt).EmptyPanel? <==> |cart| == 0
    ensures |cart| > 0 ==>
      ReadText(Drawer(true, cart, cartTotal, itemCount, fmt).checkout, CheckoutPhone) == Some(CheckoutText(cart, cartTotal, fmt))
  {
    if |cart| > 0 {
      CheckoutRoundTrip(cart, cartTotal, fmt);
    }
  }

  /** Each row belongs to the item at its position, and its buttons ask for
      one less, one more, or removal of exactly that item. */
  lemma RowButtons(cart: seq<CartItem>, cartTotal: int, itemCount: int, fmt: int -> string, i: int)
    requires 0 <= i < |cart|
    ensures Drawer(true, cart, cartTotal, itemCount, fmt).ItemsPanel?
    ensures |Drawer(true, cart, cartTotal, itemCount, fmt).rows| == |cart|
    ensures var row := Drawer(true, cart, cartTotal, itemCount, fmt).rows[i];
      && row.name == cart[i].name && row.quantity == cart[i].quantity
      && row.minus == UpdateQuantity(cart[i].id, cart[i].quantity - 1)
      && row.plus == UpdateQuantity(cart[i].id, cart[i].quantity + 1)
      && row.remove == RemoveFromCart(cart[i].id)
  {
  }
}
