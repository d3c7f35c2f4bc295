/** `components/whatsapp.tsx`: the store's WhatsApp deep link. */
module WhatsApp {
  import opened Wrappers
  import opened Text
  import opened UriComponent

  /** The store's contact number in international format, without `+`. */
  const Phone := "254720363215"

  /** `https://wa.me/<phone>?text=`, the part of a link before the message. */
  function LinkPrefix(phone: string): string {
    "https://wa.me/" + phone + "?text="
  }

  /** The message carried by a `wa.me` link to `phone`: the decoded `text`
      parameter, or `None` when the link is not of that shape. */
  function ReadText(link: string, phone: string): Option<string> {
    var prefix := LinkPrefix(phone);
    if StartsWith(link, prefix) then Decode(link[|prefix|..]) else None
  }

  /** `buildWhatsAppLink(message)`. */
  function BuildWhatsAppLink(message: string): (link: string)
    ensures StartsWith(link, LinkPrefix(Phone))
    ensures link[|LinkPrefix(Phone)|..] == Encode(message)
    ensures ReadText(link, Phone) == Some(message)
  {
    var link := LinkPrefix(Phone) + Encode(message);
    assert link[..|LinkPrefix(Phone)|] == LinkPrefix(Phone);
    assert link[|LinkPrefix(Phone)|..] == Encode(message);
    DecodeEncode(message);
    link
  }

  /** Distinct messages give distinct links; equal messages equal links. */
  lemma LinkInjective(a: string, b: string)
    ensures BuildWhatsAppLink(a) == BuildWhatsAppLink(b) <==> a == b
  {
    if BuildWhatsAppLink(a) == BuildWhatsAppLink(b) {
      EncodeInjective(a, b);
    }
  }

  /** The query value of a link contains no delimiter that would cut it short. */
  lemma LinkTextIsOneQueryValue(message: string)
    ensures forall i :: |LinkPrefix(Phone)| <= i < |BuildWhatsAppLink(message)| ==>
      BuildWhatsAppLink(message)[i] !in {' ', '\n', '&', '=', '#', '+', '?', '/'}
  {
    var link := BuildWhatsAppLink(message);
    var n := |LinkPrefix(Phone)|;
    EncodeAvoidsDelimiters(message);
    forall i | n <= i < |link| ensures link[i] !in {' ', '\n', '&', '=', '#', '+', '?', '/'} {
      assert link[i] == Encode(message)[i - n];
    }
  }

  /** The `href` of `WhatsAppButton` for `message`. */
  function WhatsAppButtonHref(message: string): (href: string)
    ensures StartsWith(href, LinkPrefix(Phone))
    ensures ReadText(href, Phone) == Some(message)
  {
    BuildWhatsAppLink(message)
  }

  /** The greeting of the about page's contact link, spelled word by word:
      `Encode` applied to one long literal is unfolded character by
      character and is expensive to verify, while word by word each step is
      one `EncodeWordSpace`. `AboutGreetingText` and `AboutPageHrefText`
      state the plain literals, and the `EncodeSentence` lemmas below encode
      the sentence one word at a time. */
  const AboutGreeting := "Hello!" + " " + ("I" + " " + ("need" + " " + ("help" + " " + ("choosing" + " " + ("a" + " " + "laptop.")))))

  /** The contact link the about page writes out by hand. */
  const AboutPageHref := "https://wa.me/" + "254720363215" + "?text="
    + ("Hello!" + "%20" + ("I" + "%20" + ("need" + "%20" + ("help" + "%20" + ("choosing" + "%20" + ("a" + "%20" + "laptop."))))))

  lemma AboutGreetingText()
    ensures AboutGreeting == "Hello! I need " + "help choosing " + "a laptop."
  {
  }

  lemma AboutPageHrefText()
    ensures AboutPageHref == "https://wa.me/" + "254720363215?text="
      + "Hello!%20I%20" + "need%20help%20" + "choosing%20" + "a%20laptop."
  {
  }

  /** The link written out by hand on the about page is the one the
      builder produces for the same greeting. */
  lemma AboutPageLink()
    ensures BuildWhatsAppLink(AboutGreeting) == AboutPageHref
  {
    EncodeSentence0();
  }

  /** A word of unreserved characters followed by a space encodes to the
      word and `%20`. */
  lemma EncodeWordSpace(w: string, rest: string)
    requires Encode(w) == w
    ensures Encode(w + " " + rest) == w + "%20" + Encode(rest)
  {
    EncodeAppend(w + " ", rest);
    EncodeAppend(w, " ");
    EncodeSpace();
  }

  lemma EncodeSentence5()
    ensures Encode("a" + " " + "laptop.")
         == "a" + "%20" + "laptop."
  {
    EncodeUnreserved("laptop.");
    EncodeUnreserved("a");
    EncodeWordSpace("a", "laptop.");
  }
  lemma EncodeSentence4()
    ensures Encode("choosing" + " " + ("a" + " " + "laptop."))
         == "choosing" + "%20" + ("a" + "%20" + "laptop.")
  {
    EncodeSentence5();
    EncodeUnreserved("choosing");
    EncodeWordSpace("choosing", "a" + " " + "laptop.");
  }
  lemma EncodeSentence3()
    ensures Encode("help" + " " + ("choosing" + " " + ("a" + " " + "laptop.")))
         == "help" + "%20" + ("choosing" + "%20" + ("a" + "%20" + "laptop."))
  {
    EncodeSentence4();
    EncodeUnreserved("help");
    EncodeWordSpace("help", "choosing" + " " + ("a" + " " + "laptop."));
  }
  lemma EncodeSentence2()
    ensures Encode("need" + " " + ("help" + " " + ("choosing" + " " + ("a" + " " + "laptop."))))
         == "need" + "%20" + ("help" + "%20" + ("choosing" + "%20" + ("a" + "%20" + "laptop.")))
  {
    EncodeSentence3();
    EncodeUnreserved("need");
    EncodeWordSpace("need", "help" + " " + ("choosing" + " " + ("a" + " " + "laptop.")));
  }
  lemma EncodeSentence1()
    ensures Encode("I" + " " + ("need" + " " + ("help" + " " + ("choosing" + " " + ("a" + " " + "laptop.")))))
         == "I" + "%20" + ("need" + "%20" + ("help" + "%20" + ("choosing" + "%20" + ("a" + "%20" + "laptop."))))
  {
    EncodeSentence2();
    EncodeUnreserved("I");
    EncodeWordSpace("I", "need" + " " + ("help" + " " + ("choosing" + " " + ("a" + " " + "laptop."))));
  }
  lemma EncodeSentence0()
    ensures Encode("Hello!" + " " + ("I" + " " + ("need" + " " + ("help" + " " + ("choosing" + " " + ("a" + " " + "laptop."))))))
         == "Hello!" + "%20" + ("I" + "%20" + ("need" + "%20" + ("help" + "%20" + ("choosing" + "%20" + ("a" + "%20" + "laptop.")))))
  {
    EncodeSentence1();
    EncodeUnreserved("Hello!");
    EncodeWordSpace("Hello!", "I" + " " + ("need" + " " + ("help" + " " + ("choosing" + " " + ("a" + " " + "laptop.")))));
  }
}
