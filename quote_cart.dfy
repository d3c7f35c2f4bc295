/** `app/cart/page.tsx`: the quote-cart page's WhatsApp message, its link
    and the quantity input's normalisation. The cart store is an input:
    `items` in display order and `cartTotal` as the store reports it. */
module QuoteCart {
  import opened Wrappers
  import opened Text
  import opened UriComponent
  import opened WhatsApp
  import opened Catalog

  // The fixed texts, written in short pieces: the verifier unfolds long
  // string literals character by character, which makes the message
  // lemmas slow; the pieces join to the literal texts of the page.
  const EmptyCartMessage := "Hello, I would " + "like to inquire " + "about laptops."
  const OrderLead := " I'd like to " + "order the " + "following laptops:"
  const ClosingLine := "Please confirm " + "availability " + "and delivery " + "options."

  /** The greeting: personalised when a name was entered. */
  function Intro(name: string): string {
    if name != "" then "Hello, I'm " + name + "." else "Hello,"
  }

  /** The line for one cart item: `• <name> x<qty> — KES <price>`. */
  function QuoteLine(item: CartItem): string {
    "• " + item.name + " x" + Digits(item.quantity) + " — KES " + Group(item.priceKES)
  }

  /** `cartItems.map(...)`: one line per item, in cart order. */
  function QuoteLines(items: seq<CartItem>): (lines: seq<string>)
    ensures |lines| == |items|
    ensures forall i :: 0 <= i < |items| ==> lines[i] == QuoteLine(items[i])
  {
    seq(|items|, i requires 0 <= i < |items| => QuoteLine(items[i]))
  }

  function SubtotalLine(cartTotal: nat): string {
    "Subtotal: KES " + Group(cartTotal)
  }

  function NotesLine(note: string): string {
    "Notes: " + note
  }

  /** The optional notes segment, a line of its own when present. */
  function NotesSegment(note: string): string {
    if note != "" then "\n" + NotesLine(note) else ""
  }

  /** The layout of a non-empty cart's message: the greeting line, the
      item lines, the subtotal line, the optional notes segment and the
      closing line, separated by newlines. */
  function Layout(first: string, lines: seq<string>, sub: string, notes: string, closing: string): string {
    first + "\n" + Join(lines, "\n") + "\n" + sub + notes + "\n" + closing
  }

  /** The `message` memo. */
  function QuoteMessage(items: seq<CartItem>, cartTotal: nat, name: string, note: string): string {
    if |items| == 0 then EmptyCartMessage
    else Layout(Intro(name) + OrderLead, QuoteLines(items), SubtotalLine(cartTotal), NotesSegment(note), ClosingLine)
  }

  /** The `href` of the "Send Order via WhatsApp" button: a link to the
      store's number whose text is exactly the message. */
  function QuoteHref(items: seq<CartItem>, cartTotal: nat, name: string, note: string): (href: string)
    ensures StartsWith(href, LinkPrefix(Phone))
    ensures href[|LinkPrefix(Phone)|..] == Encode(QuoteMessage(items, cartTotal, name, note))
    ensures ReadText(href, Phone) == Some(QuoteMessage(items, cartTotal, name, note))
  {
    BuildWhatsAppLink(QuoteMessage(items, cartTotal, name, note))
  }

  // ---------------------------------------------------------------------
  // The empty cart

  /** An empty cart yields the fixed inquiry, whatever the name, note and
      total, and mentions no subtotal. */
  lemma EmptyCartInquiry(cartTotal: nat, name: string, note: string)
    ensures QuoteMessage([], cartTotal, name, note) == EmptyCartMessage
    ensures !Includes(QuoteMessage([], cartTotal, name, note), "Subtotal")
  {
    assert 'S' !in EmptyCartMessage;
    NotIncludesByFirstChar(EmptyCartMessage, "Subtotal");
  }

  lemma {:induction false} NotIncludesByFirstChar(hay: string, needle: string)
    requires |needle| > 0
    requires forall i :: 0 <= i < |hay| ==> hay[i] != needle[0]
    ensures !Includes(hay, needle)
    decreases |hay|
  {
    if hay != [] {
      if |needle| <= |hay| {
        assert hay[..|needle|][0] == hay[0];
      }
      NotIncludesByFirstChar(hay[1..], needle);
    }
  }

  // ---------------------------------------------------------------------
  // A non-empty cart

  /** The message of a non-empty cart opens with the personal greeting
      exactly when a name was entered. */
  lemma GreetingNamesTheShopper(items: seq<CartItem>, cartTotal: nat, name: string, note: string)
    requires |items| > 0
    ensures StartsWith(QuoteMessage(items, cartTotal, name, note), "Hello, I'm ") <==> name != ""
    ensures name != "" ==> StartsWith(QuoteMessage(items, cartTotal, name, note), "Hello, I'm " + name + ".")
  {
    LayoutGreeting(name, QuoteLines(items), SubtotalLine(cartTotal), NotesSegment(note), ClosingLine);
  }

  lemma LayoutGreeting(name: string, lines: seq<string>, sub: string, notes: string, closing: string)
    ensures StartsWith(Layout(Intro(name) + OrderLead, lines, sub, notes, closing), "Hello, I'm ") <==> name != ""
    ensures name != "" ==> StartsWith(Layout(Intro(name) + OrderLead, lines, sub, notes, closing), "Hello, I'm " + name + ".")
  {
    var rest := OrderLead + LayoutAfterFirst(lines, sub, notes, closing);
    assert Layout(Intro(name) + OrderLead, lines, sub, notes, closing) == Intro(name) + rest by {
      LayoutSplitsAtFirst(Intro(name) + OrderLead, lines, sub, notes, closing);
    }
    assert |rest| >= 4 && rest[3] == 'd' by {
      assert rest[3] == OrderLead[3];
    }
    IntroPrefix(name, rest);
  }

  /** The greeting, followed by text whose fourth character is the `d` of
      `I'd`, starts like the personal greeting only when there is a name. */
  lemma IntroPrefix(name: string, rest: string)
    requires |rest| >= 4 && rest[3] == 'd'
    ensures StartsWith(Intro(name) + rest, "Hello, I'm ") <==> name != ""
    ensures name != "" ==> StartsWith(Intro(name) + rest, "Hello, I'm " + name + ".")
  {
    var m := Intro(name) + rest;
    if name != "" {
      PrefixExtends(Intro(name), rest, "Hello, I'm " + name + ".");
      PrefixShortens(m, "Hello, I'm ", name + ".");
    } else {
      assert m[9] == rest[3];
    }
  }

  /** What follows the greeting line in a layout. */
  function LayoutAfterFirst(lines: seq<string>, sub: string, notes: string, closing: string): string {
    "\n" + Join(lines, "\n") + "\n" + sub + notes + "\n" + closing
  }

  lemma LayoutSplitsAtFirst(first: string, lines: seq<string>, sub: string, notes: string, closing: string)
    ensures Layout(first, lines, sub, notes, closing) == first + LayoutAfterFirst(lines, sub, notes, closing)
  {
  }

  lemma PrefixExtends(a: string, b: string, p: string)
    requires StartsWith(a, p)
    ensures StartsWith(a + b, p)
  {
    assert (a + b)[..|p|] == a[..|p|];
  }

  lemma PrefixShortens(s: string, p: string, q: string)
    requires StartsWith(s, p + q)
    ensures StartsWith(s, p)
  {
    assert s[..|p|] == (p + q)[..|p|];
  }

  /** A layout ends with its subtotal, notes and closing line. */
  lemma LayoutEnds(first: string, lines: seq<string>, sub: string, notes: string, closing: string)
    ensures EndsWith(Layout(first, lines, sub, notes, closing), sub + notes + "\n" + closing)
    ensures EndsWith(Layout(first, lines, sub, notes, closing), closing)
  {
    var head := first + "\n" + Join(lines, "\n") + "\n";
    var tail := sub + notes + "\n" + closing;
    var m := Layout(first, lines, sub, notes, closing);
    assert m == head + tail;
    assert m[|m| - |tail|..] == tail;
    assert m[|m| - |closing|..] == closing;
  }

  /** A layout contains its subtotal line. */
  lemma LayoutIncludesSub(first: string, lines: seq<string>, sub: string, notes: string, closing: string)
    ensures Includes(Layout(first, lines, sub, notes, closing), sub)
  {
    var head := first + "\n" + Join(lines, "\n") + "\n";
    var m := Layout(first, lines, sub, notes, closing);
    assert m == head + sub + (notes + "\n" + closing);
    assert m[|head|..|head| + |sub|] == sub;
    IncludesAt(m, sub, |head|);
  }

  /** Only a non-empty cart's message closes with the request to confirm
      availability; it does so after the subtotal and the optional notes. */
  lemma ClosesWithConfirmation(items: seq<CartItem>, cartTotal: nat, name: string, note: string)
    ensures EndsWith(QuoteMessage(items, cartTotal, name, note), ClosingLine) <==> |items| > 0
    ensures |items| > 0 ==> EndsWith(QuoteMessage(items, cartTotal, name, note),
      SubtotalLine(cartTotal) + NotesSegment(note) + "\n" + ClosingLine)
  {
    if |items| > 0 {
      LayoutEnds(Intro(name) + OrderLead, QuoteLines(items), SubtotalLine(cartTotal), NotesSegment(note), ClosingLine);
    } else {
      assert |EmptyCartMessage| < |ClosingLine|;
    }
  }

  /** The subtotal of a non-empty cart appears in its message. */
  lemma MentionsSubtotal(items: seq<CartItem>, cartTotal: nat, name: string, note: string)
    requires |items| > 0
    ensures Includes(QuoteMessage(items, cartTotal, name, note), SubtotalLine(cartTotal))
  {
    LayoutIncludesSub(Intro(name) + OrderLead, QuoteLines(items), SubtotalLine(cartTotal), NotesSegment(note), ClosingLine);
  }

  /** Splitting a layout of single-line parts at newlines recovers the parts. */
  lemma LayoutLines(first: string, lines: seq<string>, sub: string, notes: seq<string>, closing: string)
    requires |lines| >= 1 && |notes| <= 1
    requires Free(first, '\n') && Free(sub, '\n') && Free(closing, '\n')
    requires forall i :: 0 <= i < |lines| ==> Free(lines[i], '\n')
    requires forall i :: 0 <= i < |notes| ==> Free(notes[i], '\n')
    ensures Split(Layout(first, lines, sub, NotesText(notes), closing), '\n')
      == [first] + lines + [sub] + notes + [closing]
  {
    var after := sub + NotesText(notes) + "\n" + closing;
    var body := Join(lines, "\n") + "\n" + after;
    calc {
      Split(Layout(first, lines, sub, NotesText(notes), closing), '\n');
    == { LayoutShape(first, Join(lines, "\n"), sub, NotesText(notes), closing); }
      Split(first + ['\n'] + body, '\n');
    == { SplitLine(first, body, '\n'); }
      [first] + Split(body, '\n');
    == { SplitJoinThen(lines, after, '\n'); }
      [first] + (lines + Split(after, '\n'));
    == { TailLines(sub, notes, closing); }
      [first] + (lines + ([sub] + notes + [closing]));
    }
  }

  lemma LayoutShape(first: string, middle: string, sub: string, notes: string, closing: string)
    ensures first + "\n" + middle + "\n" + sub + notes + "\n" + closing
         == first + ['\n'] + (middle + "\n" + (sub + notes + "\n" + closing))
  {
  }

  /** The notes segment for at most one notes line. */
  function NotesText(notes: seq<string>): string
    requires |notes| <= 1
  {
    if |notes| == 0 then "" else "\n" + notes[0]
  }

  lemma TailLines(sub: string, notes: seq<string>, closing: string)
    requires |notes| <= 1
    requires Free(sub, '\n') && Free(closing, '\n')
    requires forall i :: 0 <= i < |notes| ==> Free(notes[i], '\n')
    ensures Split(sub + NotesText(notes) + "\n" + closing, '\n') == [sub] + notes + [closing]
  {
    if |notes| == 0 {
      TailWithoutNotes(sub, notes, closing);
    } else {
      TailWithNotes(sub, notes, closing);
    }
  }

  lemma TailWithoutNotes(sub: string, notes: seq<string>, closing: string)
    requires |notes| == 0 && Free(sub, '\n') && Free(closing, '\n')
    ensures Split(sub + NotesText(notes) + "\n" + closing, '\n') == [sub] + notes + [closing]
  {
    calc {
      Split(sub + NotesText(notes) + "\n" + closing, '\n');
    == { assert sub + NotesText(notes) + "\n" + closing == sub + "\n" + closing; }
      Split(sub + "\n" + closing, '\n');
    == { TwoLines(sub, closing); }
      [sub] + notes + [closing];
    }
  }

  lemma TailWithNotes(sub: string, notes: seq<string>, closing: string)
    requires |notes| == 1 && Free(sub, '\n') && Free(notes[0], '\n') && Free(closing, '\n')
    ensures Split(sub + NotesText(notes) + "\n" + closing, '\n') == [sub] + notes + [closing]
  {
    var n := notes[0];
    calc {
      Split(sub + NotesText(notes) + "\n" + closing, '\n');
    == { assert sub + NotesText(notes) + "\n" + closing == sub + "\n" + n + "\n" + closing; }
      Split(sub + "\n" + n + "\n" + closing, '\n');
    == { ThreeLines(sub, n, closing); }
      [sub, n, closing];
    == { assert notes == [n]; }
      [sub] + notes + [closing];
    }
  }

  lemma TwoLines(a: string, b: string)
    requires Free(a, '\n') && Free(b, '\n')
    ensures Split(a + "\n" + b, '\n') == [a, b]
  {
    SplitLine(a, b, '\n');
    SplitFree(b, '\n');
  }

  lemma ThreeLines(a: string, b: string, c: string)
    requires Free(a, '\n') && Free(b, '\n') && Free(c, '\n')
    ensures Split(a + "\n" + b + "\n" + c, '\n') == [a, b, c]
  {
    assert a + "\n" + b + "\n" + c == a + "\n" + (b + "\n" + c);
    SplitLine(a, b + "\n" + c, '\n');
    TwoLines(b, c);
  }

  /** The lines of a non-empty cart's message: the greeting, one line per
      item in cart order, the subtotal, the notes when there are any, and
      the closing line. This holds whenever the entered texts are single
      lines. */
  lemma MessageLines(items: seq<CartItem>, cartTotal: nat, name: string, note: string)
    requires |items| > 0
    requires Free(name, '\n') && Free(note, '\n')
    requires forall i :: 0 <= i < |items| ==> Free(items[i].name, '\n')
    ensures Split(QuoteMessage(items, cartTotal, name, note), '\n') ==
      [Intro(name) + OrderLead] + QuoteLines(items) + [SubtotalLine(cartTotal)]
      + (if note != "" then [NotesLine(note)] else []) + [ClosingLine]
  {
    var lines := QuoteLines(items);
    var notes := if note != "" then [NotesLine(note)] else [];
    QuoteLinesFree(items);
    MessagePartsFree(cartTotal, name, note);
    assert QuoteMessage(items, cartTotal, name, note)
        == Layout(Intro(name) + OrderLead, lines, SubtotalLine(cartTotal), NotesText(notes), ClosingLine);
    LayoutLines(Intro(name) + OrderLead, lines, SubtotalLine(cartTotal), notes, ClosingLine);
  }

  lemma QuoteLinesFree(items: seq<CartItem>)
    requires forall i :: 0 <= i < |items| ==> Free(items[i].name, '\n')
    ensures forall i :: 0 <= i < |QuoteLines(items)| ==> Free(QuoteLines(items)[i], '\n')
  {
    forall i | 0 <= i < |items| ensures Free(QuoteLines(items)[i], '\n') {
      QuoteLineFree(items[i]);
    }
  }

  lemma MessagePartsFree(cartTotal: nat, name: string, note: string)
    requires Free(name, '\n') && Free(note, '\n')
    ensures Free(Intro(name) + OrderLead, '\n') && Free(SubtotalLine(cartTotal), '\n')
    ensures Free(NotesLine(note), '\n') && Free(ClosingLine, '\n')
  {
    IntroFree(name);
    FixedLinesFree();
    GroupFree(cartTotal);
    FreeAppend(Intro(name), OrderLead, '\n');
    FreeAppend("Subtotal: KES ", Group(cartTotal), '\n');
    FreeAppend("Notes: ", note, '\n');
  }

  lemma IntroFree(name: string)
    requires Free(name, '\n')
    ensures Free(Intro(name), '\n')
  {
    if name != "" {
      FreeAppend("Hello, I'm ", name, '\n');
      FreeAppend("Hello, I'm " + name, ".", '\n');
    }
  }

  lemma FixedLinesFree()
    ensures Free(OrderLead, '\n') && Free(ClosingLine, '\n')
    ensures Free("Subtotal: KES ", '\n') && Free("Notes: ", '\n')
  {
    OrderLeadFree();
    ClosingLineFree();
  }

  lemma OrderLeadFree()
    ensures Free(OrderLead, '\n')
  {
    FreeAppend(" I'd like to ", "order the ", '\n');
    FreeAppend(" I'd like to " + "order the ", "following laptops:", '\n');
  }

  lemma ClosingLineFree()
    ensures Free(ClosingLine, '\n')
  {
    FreeAppend("Please confirm ", "availability ", '\n');
    FreeAppend("Please confirm " + "availability ", "and delivery ", '\n');
    FreeAppend("Please confirm " + "availability " + "and delivery ", "options.", '\n');
  }



  /** The message has one line per item plus three, and a fourth extra line
      exactly when there are notes. */
  lemma LineCount(items: seq<CartItem>, cartTotal: nat, name: string, note: string)
    requires |items| > 0
    requires Free(name, '\n') && Free(note, '\n')
    requires forall i :: 0 <= i < |items| ==> Free(items[i].name, '\n')
    ensures |Split(QuoteMessage(items, cartTotal, name, note), '\n')| ==
      |items| + (if note != "" then 4 else 3)
  {
    MessageLines(items, cartTotal, name, note);
  }

  lemma GroupFree(n: nat)
    ensures Free(Group(n), '\n')
  {
    GroupAlphabet(n);
  }

  lemma QuoteLineFree(item: CartItem)
    requires Free(item.name, '\n')
    ensures Free(QuoteLine(item), '\n')
  {
    GroupFree(item.priceKES);
  }

  // ---------------------------------------------------------------------
  // The quantity input

  /** `Math.max(1, Number(v) || 1)` for the number the input holds (the
      empty input gives 0): falsy numbers (0 and `NaN`) become 1, then
      anything below 1 is raised to 1. */
  function ClampQuantity(v: NumberValue): (q: int)
    ensures q >= 1
    ensures v.Finite? && v.value >= 1 ==> q == v.value
    ensures v.NaN? || v.value < 1 ==> q == 1
  {
    var n := if Truthy(v) then v.value else 1;
    if n < 1 then 1 else n
  }
}
