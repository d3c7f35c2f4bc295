/** Text helpers used by the message builders and the catalog filters:
    decimal rendering (`String(n)`), en-style thousands grouping
    (`Number.prototype.toLocaleString`), `Array.prototype.join`,
    `String.prototype.split`, prefix/suffix/substring tests, ASCII
    lower-casing and code-point lexicographic order. */
module Text {

  predicate IsDigit(c: char) {
    '0' <= c <= '9'
  }

  predicate AllDigits(s: string) {
    forall i :: 0 <= i < |s| ==> IsDigit(s[i])
  }

  function DigitChar(d: nat): (c: char)
    requires d < 10
    ensures IsDigit(c) && c as int - '0' as int == d
  {
    ('0' as int + d) as char
  }

  /** The decimal form of `n`, as `String(n)` or a template literal renders
      a non-negative integer. */
  function Digits(n: nat): (s: string)
    ensures |s| >= 1 && AllDigits(s)
    ensures n < 10 <==> |s| == 1
    decreases n
  {
    if n < 10 then [DigitChar(n)] else Digits(n / 10) + [DigitChar(n % 10)]
  }

  /** The number a string of decimal digits denotes. */
  function ValueOf(s: string): nat
    requires AllDigits(s)
  {
    if s == [] then 0 else ValueOf(s[..|s| - 1]) * 10 + (s[|s| - 1] as int - '0' as int)
  }

  /** `String(i)` for any integer: a leading minus sign for negatives. */
  function IntString(i: int): (s: string)
    ensures |s| >= 1
    ensures i < 0 <==> s[0] == '-'
  {
    if i < 0 then "-" + Digits(-i) else Digits(i)
  }

  lemma {:induction false} DigitsRoundTrip(n: nat)
    ensures ValueOf(Digits(n)) == n
    decreases n
  {
    if n >= 10 {
      DigitsRoundTrip(n / 10);
      var s := Digits(n);
      assert s[..|s| - 1] == Digits(n / 10);
    }
  }

  /** Decimal forms carry no leading zero. */
  lemma {:induction false} DigitsNoLeadingZero(n: nat)
    ensures Digits(n)[0] == '0' <==> n == 0
    decreases n
  {
    if n >= 10 {
      DigitsNoLeadingZero(n / 10);
    }
  }

  lemma DigitsInjective(m: nat, n: nat)
    requires Digits(m) == Digits(n)
    ensures m == n
  {
    DigitsRoundTrip(m);
    DigitsRoundTrip(n);
  }

  // ---------------------------------------------------------------------
  // Thousands grouping

  /** The three digits of `k`, zero-padded. */
  function Pad3(k: nat): (s: string)
    requires k < 1000
    ensures |s| == 3 && AllDigits(s)
  {
    [DigitChar(k / 100), DigitChar(k / 10 % 10), DigitChar(k % 10)]
  }

  /** `n.toLocaleString()` in an English locale: groups of three digits
      separated by commas, e.g. `1234999` becomes `1,234,999`. */
  function Group(n: nat): (s: string)
    ensures |s| >= 1 && IsDigit(s[|s| - 1]) && IsDigit(s[0])
    decreases n
  {
    if n < 1000 then Digits(n) else Group(n / 1000) + "," + Pad3(n % 1000)
  }

  function StripCommas(s: string): string {
    if s == [] then []
    else StripCommas(s[..|s| - 1]) + (if s[|s| - 1] == ',' then [] else [s[|s| - 1]])
  }

  /** The grouped shape: a first group of one to three digits, then groups
      of exactly three digits, each after a comma. */
  predicate WellGrouped(s: string)
    decreases |s|
  {
    (1 <= |s| <= 3 && AllDigits(s))
    || (|s| >= 5 && s[|s| - 4] == ',' && AllDigits(s[|s| - 3..]) && WellGrouped(s[..|s| - 4]))
  }

  lemma DigitsSplit3(n: nat)
    requires n >= 1000
    ensures Digits(n) == Digits(n / 1000) + Pad3(n % 1000)
  {
    var n1 := n / 10;
    var n2 := n1 / 10;
    DecimalPlaces(n);
    assert Digits(n) == Digits(n1) + [DigitChar(n % 10)];
    assert Digits(n1) == Digits(n2) + [DigitChar(n1 % 10)];
    assert Digits(n2) == Digits(n / 1000) + [DigitChar(n2 % 10)];
    assert Pad3(n % 1000) == [DigitChar(n2 % 10)] + [DigitChar(n1 % 10)] + [DigitChar(n % 10)];
  }

  /** The last three decimal places of `n` are the digits of `n % 1000`. */
  lemma DecimalPlaces(n: nat)
    ensures n / 10 / 10 / 10 == n / 1000
    ensures n / 10 / 10 % 10 == n % 1000 / 100
    ensures n / 10 % 10 == n % 1000 / 10 % 10
    ensures n % 10 == n % 1000 % 10
  {
    var q, r := n / 1000, n % 1000;
    assert n == 1000 * q + r;
    assert n / 10 == 100 * q + r / 10;
    assert n / 10 / 10 == 10 * q + r / 100;
  }

  lemma StripCommasAppend(a: string, b: string)
    ensures StripCommas(a + b) == StripCommas(a) + StripCommas(b)
    decreases |b|
  {
    if b != [] {
      var b' := b[..|b| - 1];
      assert (a + b)[..|a + b| - 1] == a + b';
      StripCommasAppend(a, b');
    } else {
      assert a + b == a;
    }
  }

  lemma StripCommasDigits(s: string)
    requires AllDigits(s)
    ensures StripCommas(s) == s
    decreases |s|
  {
    if s != [] {
      StripCommasDigits(s[..|s| - 1]);
    }
  }

  /** Removing the separators from `Group(n)` gives the decimal form of `n`. */
  lemma {:induction false} GroupStripsToDigits(n: nat)
    ensures StripCommas(Group(n)) == Digits(n)
    decreases n
  {
    if n < 1000 {
      StripCommasDigits(Digits(n));
    } else {
      var head, tail := Group(n / 1000), Pad3(n % 1000);
      GroupStripsToDigits(n / 1000);
      StripCommaSeparated(head, tail);
      DigitsSplit3(n);
    }
  }

  lemma StripCommaSeparated(head: string, tail: string)
    requires AllDigits(tail)
    ensures StripCommas(head + "," + tail) == StripCommas(head) + tail
  {
    assert StripCommas(",") == [] by {
      assert ","[..0] == [];
    }
    calc {
      StripCommas(head + "," + tail);
    == { StripCommasAppend(head + ",", tail); StripCommasDigits(tail); }
      StripCommas(head + ",") + tail;
    == { StripCommasAppend(head, ","); }
      StripCommas(head) + StripCommas(",") + tail;
    }
  }

  /** Every group after the first has exactly three digits; the first has
      one to three and does not start with a zero unless `n` is zero. */
  lemma {:induction false} GroupIsWellGrouped(n: nat)
    ensures WellGrouped(Group(n))
    ensures Group(n)[0] == '0' <==> n == 0
    decreases n
  {
    if n < 1000 {
      DigitsNoLeadingZero(n);
    } else {
      GroupIsWellGrouped(n / 1000);
      var s := Group(n);
      assert s[..|s| - 4] == Group(n / 1000);
      assert s[|s| - 3..] == Pad3(n % 1000);
    }
  }

  /** A grouped amount is made of digits and commas only. */
  lemma {:induction false} GroupAlphabet(n: nat)
    ensures forall i :: 0 <= i < |Group(n)| ==> IsDigit(Group(n)[i]) || Group(n)[i] == ','
    decreases n
  {
    if n >= 1000 {
      GroupAlphabet(n / 1000);
      var head, tail := Group(n / 1000), Pad3(n % 1000);
      assert Group(n) == head + "," + tail;
      forall i | 0 <= i < |Group(n)| ensures IsDigit(Group(n)[i]) || Group(n)[i] == ',' {
        if i < |head| {
          assert Group(n)[i] == head[i];
        } else if i > |head| {
          assert Group(n)[i] == tail[i - |head| - 1];
        }
      }
    }
  }

  /** Distinct amounts are rendered differently. */
  lemma GroupInjective(m: nat, n: nat)
    requires Group(m) == Group(n)
    ensures m == n
  {
    GroupStripsToDigits(m);
    GroupStripsToDigits(n);
    DigitsInjective(m, n);
  }

  // ---------------------------------------------------------------------
  // Joining, splitting, prefixes

  /** `lines.join(sep)`. */
  function Join(lines: seq<string>, sep: string): string
    decreases |lines|
  {
    if |lines| == 0 then ""
    else if |lines| == 1 then lines[0]
    else lines[0] + sep + Join(lines[1..], sep)
  }

  /** `s.split(sep)` for a one-character separator: the pieces between
      separators, at least one (`"".split(sep)` is `[""]`). */
  function Split(s: string, sep: char): (r: seq<string>)
    ensures |r| >= 1
    decreases |s|
  {
    if s == [] then [""]
    else if s[0] == sep then [""] + Split(s[1..], sep)
    else var rest := Split(s[1..], sep); [[s[0]] + rest[0]] + rest[1..]
  }

  predicate Free(s: string, c: char) {
    c !in s
  }

  lemma FreeAppend(a: string, b: string, c: char)
    ensures Free(a + b, c) <==> Free(a, c) && Free(b, c)
  {
    assert forall x :: x in a + b <==> x in a || x in b;
  }

  lemma {:induction false} SplitFree(s: string, sep: char)
    requires Free(s, sep)
    ensures Split(s, sep) == [s]
    decreases |s|
  {
    if s != [] {
      SplitFree(s[1..], sep);
      assert [s[0]] + s[1..] == s;
    }
  }

  /** A separator ends the pieces before it and starts the pieces after it. */
  lemma {:induction false} SplitAround(a: string, b: string, sep: char)
    ensures Split(a + [sep] + b, sep) == Split(a, sep) + Split(b, sep)
    decreases |a|
  {
    if a == [] {
      var s := a + [sep] + b;
      assert s == [sep] + b && s[1..] == b;
    } else {
      SplitAround(a[1..], b, sep);
      assert a == [a[0]] + a[1..];
      assert a + [sep] + b == [a[0]] + (a[1..] + [sep] + b);
      SplitAroundStep(a[0], a[1..], b, sep);
    }
  }

  /** A leading separator starts a new, empty piece. */
  lemma SplitConsSep(t: string, sep: char)
    ensures Split([sep] + t, sep) == [""] + Split(t, sep)
  {
    assert ([sep] + t)[1..] == t;
  }

  /** Any other leading character joins the first piece. */
  lemma SplitConsOther(c: char, t: string, sep: char)
    requires c != sep
    ensures Split([c] + t, sep) == [[c] + Split(t, sep)[0]] + Split(t, sep)[1..]
  {
    assert ([c] + t)[0] == c && ([c] + t)[1..] == t;
  }

  /** One step of `SplitAround`: from `t` to `[c] + t`. */
  lemma SplitAroundStep(c: char, t: string, b: string, sep: char)
    requires Split(t + [sep] + b, sep) == Split(t, sep) + Split(b, sep)
    ensures Split([c] + (t + [sep] + b), sep) == Split([c] + t, sep) + Split(b, sep)
  {
    if c == sep {
      SplitConsSep(t + [sep] + b, sep);
      SplitConsSep(t, sep);
    } else {
      SplitConsOther(c, t + [sep] + b, sep);
      SplitConsOther(c, t, sep);
      ConsFirst([c], Split(t, sep), Split(b, sep));
    }
  }

  /** Gluing onto the first piece commutes with appending more pieces. */
  lemma ConsFirst(p: string, left: seq<string>, right: seq<string>)
    requires |left| >= 1
    ensures [p + (left + right)[0]] + (left + right)[1..] == [p + left[0]] + left[1..] + right
  {
    assert (left + right)[0] == left[0];
    assert (left + right)[1..] == left[1..] + right;
  }

  /** When the line before the separator contains no separator, it becomes one line. */
  lemma SplitLine(a: string, b: string, sep: char)
    requires Free(a, sep)
    ensures Split(a + [sep] + b, sep) == [a] + Split(b, sep)
  {
    SplitAround(a, b, sep);
    SplitFree(a, sep);
  }

  /** Joining separator-free lines and splitting the result gives the lines back. */
  lemma {:induction false} SplitJoin(lines: seq<string>, sep: char)
    requires |lines| >= 1
    requires forall i :: 0 <= i < |lines| ==> Free(lines[i], sep)
    ensures Split(Join(lines, [sep]), sep) == lines
    decreases |lines|
  {
    if |lines| == 1 {
      SplitFree(lines[0], sep);
    } else {
      SplitJoin(lines[1..], sep);
      SplitLine(lines[0], Join(lines[1..], [sep]), sep);
    }
  }
  /** Joined lines followed by a separator and more text split back into
      those lines and the pieces of the rest. */
  lemma SplitJoinThen(lines: seq<string>, rest: string, sep: char)
    requires |lines| >= 1
    requires forall i :: 0 <= i < |lines| ==> Free(lines[i], sep)
    ensures Split(Join(lines, [sep]) + [sep] + rest, sep) == lines + Split(rest, sep)
  {
    SplitAround(Join(lines, [sep]), rest, sep);
    SplitJoin(lines, sep);
  }


  predicate StartsWith(s: string, prefix: string) {
    |prefix| <= |s| && s[..|prefix|] == prefix
  }

  predicate EndsWith(s: string, suffix: string) {
    |suffix| <= |s| && s[|s| - |suffix|..] == suffix
  }

  /** `hay.includes(needle)`; the empty needle is found everywhere. */
  predicate Includes(hay: string, needle: string)
    decreases |hay|
  {
    StartsWith(hay, needle) || (hay != [] && Includes(hay[1..], needle))
  }

  lemma {:induction false} IncludesAt(hay: string, needle: string, i: nat)
    requires i + |needle| <= |hay| && hay[i..i + |needle|] == needle
    ensures Includes(hay, needle)
    decreases i
  {
    if i > 0 {
      assert hay[1..][i - 1..i - 1 + |needle|] == hay[i..i + |needle|];
      IncludesAt(hay[1..], needle, i - 1);
    }
  }

  // ---------------------------------------------------------------------
  // Case mapping and ordering

  /** ASCII-only `toLowerCase` of one character. */
  function LowerChar(c: char): (d: char)
    ensures 'A' <= c <= 'Z' ==> d as int == c as int + 32
    ensures !('A' <= c <= 'Z') ==> d == c
  {
    if 'A' <= c <= 'Z' then (c as int + 32) as char else c
  }

  function Lower(s: string): (r: string)
    ensures |r| == |s|
    ensures forall i :: 0 <= i < |s| ==> r[i] == LowerChar(s[i])
  {
    seq(|s|, i requires 0 <= i < |s| => LowerChar(s[i]))
  }

  lemma LowerIdempotent(s: string)
    ensures Lower(Lower(s)) == Lower(s)
  {
  }

  /** Lexicographic order on code points (`a <= b` for strings). */
  predicate LexLe(a: string, b: string)
    decreases |a|
  {
    a == [] || (b != [] && (a[0] < b[0] || (a[0] == b[0] && LexLe(a[1..], b[1..]))))
  }

  lemma {:induction false} LexLeTotal(a: string, b: string)
    ensures LexLe(a, b) || LexLe(b, a)
    decreases |a|
  {
    if a != [] && b != [] && a[0] == b[0] {
      LexLeTotal(a[1..], b[1..]);
    }
  }

  lemma {:induction false} LexLeTransitive(a: string, b: string, c: string)
    requires LexLe(a, b) && LexLe(b, c)
    ensures LexLe(a, c)
    decreases |a|
  {
    if a != [] && a[0] == b[0] && b[0] == c[0] {
      LexLeTransitive(a[1..], b[1..], c[1..]);
    }
  }

  lemma {:induction false} LexLeAntisymmetric(a: string, b: string)
    requires LexLe(a, b) && LexLe(b, a)
    ensures a == b
    decreases |a|
  {
    if a != [] {
      LexLeAntisymmetric(a[1..], b[1..]);
      assert a == [a[0]] + a[1..] && b == [b[0]] + b[1..];
    }
  }
}
