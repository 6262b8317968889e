/** The price path of `crypto_price` and `stock_price`: the extracted price text is
    reduced to its digits and decimal points, then converted with `float()`. */
module Price {
  import opened Wrappers
  import opened Seqs
  import opened PyStrings

  /** `int(c)` succeeds on a single character exactly when it is a decimal digit. */
  predicate IsDigit(c: char)
  {
    '0' <= c <= '9'
  }

  /** The characters the price loop leaves in place. */
  predicate IsPriceChar(c: char)
  {
    IsDigit(c) || c == '.'
  }

  predicate AllDigits(s: string)
  {
    forall i :: 0 <= i < |s| ==> IsDigit(s[i])
  }

  predicate AllPriceChars(s: string)
  {
    forall i :: 0 <= i < |s| ==> IsPriceChar(s[i])
  }

  predicate HasDigit(s: string)
  {
    exists i :: 0 <= i < |s| && IsDigit(s[i])
  }

  /** `s.replace(c, '')`: every occurrence of `c` removed. */
  function DeleteAll(s: string, c: char): (r: string)
    ensures c !in r
    ensures forall x :: x != c ==> multiset(r)[x] == multiset(s)[x]
    ensures IsSubsequence(r, s)
  {
    FilterCounts(s, x => x != c);
    Filter(s, x => x != c)
  }

  /** The digits and points of `s`, in their original order. */
  function PriceChars(s: string): string
  {
    Filter(s, IsPriceChar)
  }

  /** What is left of `price` after the loop has visited its first `i` characters: every
      non-price character seen so far has had all of its occurrences deleted. */
  function Survivors(price: string, i: nat): string
    requires i <= |price|
  {
    Filter(price, x => IsPriceChar(x) || x !in price[..i])
  }

  lemma SurvivorsStep(price: string, i: nat)
    requires i < |price|
    ensures Survivors(price, i + 1)
      == if IsPriceChar(price[i]) then Survivors(price, i) else DeleteAll(Survivors(price, i), price[i])
  {
    if IsPriceChar(price[i]) {
      SurvivorsKeep(price, i);
    } else {
      SurvivorsDelete(price, i);
    }
  }

  lemma SurvivorsKeep(price: string, i: nat)
    requires i < |price| && IsPriceChar(price[i])
    ensures Survivors(price, i + 1) == Survivors(price, i)
  {
    var c := price[i];
    var p := x => IsPriceChar(x) || x !in price[..i];
    var q := x => IsPriceChar(x) || x !in price[..i + 1];
    assert price[..i + 1] == price[..i] + [c];
    forall k | 0 <= k < |price|
      ensures p(price[k]) == q(price[k])
    {
      if price[k] != c {
        assert price[k] in price[..i + 1] <==> price[k] in price[..i];
      }
    }
    FilterCongruent(price, p, q);
  }

  lemma SurvivorsDelete(price: string, i: nat)
    requires i < |price| && !IsPriceChar(price[i])
    ensures Survivors(price, i + 1) == DeleteAll(Survivors(price, i), price[i])
  {
    var c := price[i];
    var p := x => IsPriceChar(x) || x !in price[..i];
    var q := x => IsPriceChar(x) || x !in price[..i + 1];
    assert price[..i + 1] == price[..i] + [c];
    forall k | 0 <= k < |price|
      ensures q(price[k]) == (p(price[k]) && price[k] != c)
    {
      assert price[k] in price[..i + 1] <==> price[k] in price[..i] || price[k] == c;
    }
    DeleteAfterFilter(price, p, c, q);
  }

  /** Deleting every `c` from a filtered sequence is filtering by the stronger condition. */
  lemma {:induction false} DeleteAfterFilter(s: string, p: char -> bool, c: char, pc: char -> bool)
    requires forall k :: 0 <= k < |s| ==> pc(s[k]) == (p(s[k]) && s[k] != c)
    ensures DeleteAll(Filter(s, p), c) == Filter(s, pc)
  {
    if s != [] {
      DeleteAfterFilter(s[1..], p, c, pc);
      var rest := Filter(s[1..], p);
      if p(s[0]) {
        assert ([s[0]] + rest)[1..] == rest;
      }
    }
  }

  /** The character loop of the source, iterating over the original text while deleting from
      a working copy. It leaves exactly the digits and points, in order. */
  method StripPrice(price: string) returns (r: string)
    ensures r == PriceChars(price)
    ensures AllPriceChars(r)
    ensures IsSubsequence(r, price)
    ensures forall c :: IsPriceChar(c) ==> multiset(r)[c] == multiset(price)[c]
  {
    r := price;
    FilterCongruent(price, x => true, x => IsPriceChar(x) || x !in price[..0]);
    FilterAll(price);
    var i := 0;
    while i < |price|
      invariant 0 <= i <= |price|
      invariant r == Survivors(price, i)
    {
      var c := price[i];
      SurvivorsStep(price, i);
      if !IsPriceChar(c) {
        r := DeleteAll(r, c);
      }
      i := i + 1;
    }
    assert price[..|price|] == price;
    FilterCounts(price, IsPriceChar);
    FilterCongruent(price, x => IsPriceChar(x) || x !in price[..|price|], IsPriceChar);
  }

  lemma {:induction false} FilterAll(s: string)
    ensures Filter(s, x => true) == s
  {
    if s != [] {
      FilterAll(s[1..]);
    }
  }

  /** Filtering an already filtered price changes nothing. */
  lemma PriceCharsIdempotent(s: string)
    ensures PriceChars(PriceChars(s)) == PriceChars(s)
  {
    FilterIdempotent(s, IsPriceChar);
  }

  lemma {:induction false} FilterSpaces(s: string)
    requires forall i :: 0 <= i < |s| ==> IsSpace(s[i])
    ensures PriceChars(s) == []
  {
    if s != [] {
      FilterSpaces(s[1..]);
    }
  }

  /** The `.strip()` that `stock_price` applies first removes only whitespace, which the
      filter would remove anyway. */
  lemma PriceCharsIgnoresStrip(s: string)
    ensures PriceChars(Strip(s)) == PriceChars(s)
  {
    var r := Strip(s);
    var lead := |s| - |StripLeft(s)|;
    StripShape(s);
    SliceThree(s, lead, lead + |r|);
    PriceCharsBetweenSpaces(s[..lead], s[lead..lead + |r|], s[lead + |r|..]);
  }

  /** Kept apart from its caller so that the slice facts do not enter the Strip proof. */
  lemma SliceThree(s: string, i: nat, j: nat)
    requires i <= j <= |s|
    ensures s == s[..i] + s[i..j] + s[j..]
  {
  }

  lemma PriceCharsBetweenSpaces(a: string, r: string, b: string)
    requires forall i :: 0 <= i < |a| ==> IsSpace(a[i])
    requires forall i :: 0 <= i < |b| ==> IsSpace(b[i])
    ensures PriceChars(a + r + b) == PriceChars(r)
  {
    FilterAppend(a + r, b, IsPriceChar);
    FilterAppend(a, r, IsPriceChar);
    FilterSpaces(a);
    FilterSpaces(b);
  }

  /** An exact decimal number: `mantissa / 10^scale`. */
  datatype Decimal = Decimal(mantissa: nat, scale: nat)

  function Pow10(n: nat): (p: nat)
    ensures p >= 1
  {
    if n == 0 then 1 else 10 * Pow10(n - 1)
  }

  function Value(d: Decimal): real
  {
    d.mantissa as real / Pow10(d.scale) as real
  }

  /** The number written by a string of decimal digits. */
  function DigitValue(ds: string): nat
    requires AllDigits(ds)
  {
    if ds == [] then 0
    else 10 * DigitValue(ds[..|ds| - 1]) + (ds[|ds| - 1] as int - '0' as int)
  }

  /** The length of the run of digits at the start of `s`. */
  function LeadingDigits(s: string): (n: nat)
    ensures n <= |s| && AllDigits(s[..n])
    ensures n == |s| || !IsDigit(s[n])
  {
    if s != [] && IsDigit(s[0]) then
      var k := LeadingDigits(s[1..]);
      assert s[..k + 1] == [s[0]] + s[1..][..k];
      k + 1
    else 0
  }

  /** Python's `float(s)` on a string made only of digits and points. The accepted forms are
      `digits`, `digits.`, `digits.digits` and `.digits`; everything else raises ValueError. */
  function ToFloat(s: string): (r: Result<Decimal, PyError>)
    requires AllPriceChars(s)
    ensures r.Failure? ==> r.error == ValueError
  {
    var n := LeadingDigits(s);
    if n == |s| then
      if n == 0 then Failure(ValueError) else Success(Decimal(DigitValue(s), 0))
    else PointNumber(s[..n], s[n + 1..])
  }

  /** The conversion once the integer digits `whole` and the text after the first point are
      known: the rest must be digits, and at least one digit must appear on either side. */
  function PointNumber(whole: string, frac: string): (r: Result<Decimal, PyError>)
    requires AllDigits(whole) && AllPriceChars(frac)
    ensures r.Failure? ==> r.error == ValueError
  {
    var m := LeadingDigits(frac);
    if m < |frac| || (whole == [] && m == 0) then Failure(ValueError)
    else
      assert AllDigits(whole + frac) by { assert frac[..m] == frac; }
      Success(Decimal(DigitValue(whole + frac), m))
  }

  /** The conversion succeeds exactly when the text has a digit and at most one point. */
  lemma ToFloatAccepts(s: string)
    requires AllPriceChars(s)
    ensures ToFloat(s).Success? <==> HasDigit(s) && multiset(s)['.'] <= 1
  {
    var n := LeadingDigits(s);
    if n == |s| {
      assert s[..n] == s;
      assert '.' !in s;
      DigitsHaveDigit(s);
    } else {
      PointAt(s, n);
      PointNumberAccepts(s[..n], s[n + 1..]);
    }
  }

  lemma DigitsHaveDigit(s: string)
    requires AllDigits(s)
    ensures HasDigit(s) <==> s != []
  {
    if s != [] {
      assert IsDigit(s[0]);
    }
  }

  /** The first non-digit of a price text is a point; it splits the count of points and the
      digits between the two sides. */
  lemma PointAt(s: string, n: nat)
    requires AllPriceChars(s) && n == LeadingDigits(s) && n < |s|
    ensures s[n] == '.'
    ensures multiset(s)['.'] == 1 + multiset(s[n + 1..])['.']
    ensures HasDigit(s) <==> HasDigit(s[..n]) || HasDigit(s[n + 1..])
  {
    assert s == s[..n] + [s[n]] + s[n + 1..];
    assert '.' !in s[..n];
    if HasDigit(s) {
      var i :| 0 <= i < |s| && IsDigit(s[i]);
      if i < n {
        assert s[..n][i] == s[i];
      } else if i > n {
        assert s[n + 1..][i - n - 1] == s[i];
      }
    }
  }

  /** After the point: success exactly when the rest is digits and a digit appears somewhere. */
  lemma PointNumberAccepts(whole: string, frac: string)
    requires AllDigits(whole) && AllPriceChars(frac)
    ensures PointNumber(whole, frac).Success?
      <==> (HasDigit(whole) || HasDigit(frac)) && multiset(frac)['.'] == 0
  {
    var m := LeadingDigits(frac);
    DigitsHaveDigit(whole);
    if m < |frac| {
      assert frac[m] == '.';
      assert frac[m] in multiset(frac);
    } else {
      assert frac[..m] == frac;
      assert '.' !in frac;
      DigitsHaveDigit(frac);
    }
  }

  lemma LeadingDigitsOfNumber(a: string, rest: string)
    requires AllDigits(a) && (rest == [] || !IsDigit(rest[0]))
    ensures LeadingDigits(a + rest) == |a|
  {
    if a != [] {
      assert (a + rest)[1..] == a[1..] + rest;
      LeadingDigitsOfNumber(a[1..], rest);
    } else {
      assert a + rest == rest;
    }
  }

  /** A well-formed number `a.b` converts to the digits of `a` and `b` scaled by the
      number of fraction digits; a bare point is rejected. */
  lemma ToFloatPointValue(a: string, b: string)
    requires AllDigits(a) && AllDigits(b)
    ensures AllPriceChars(a + "." + b)
    ensures ToFloat(a + "." + b)
      == if a == [] && b == [] then Failure(ValueError) else Success(Decimal(DigitValue(a + b), |b|))
  {
    var s := a + "." + b;
    PointNumberChars(a, b);
    PointNumberLead(a, b);
    assert s[..|a|] == a && s[|a| + 1..] == b;
    LeadingDigitsOfNumber(b, "");
    assert b + "" == b;
  }

  lemma PointNumberChars(a: string, b: string)
    requires AllDigits(a) && AllDigits(b)
    ensures AllPriceChars(a + "." + b)
  {
  }

  lemma PointNumberLead(a: string, b: string)
    requires AllDigits(a)
    ensures LeadingDigits(a + "." + b) == |a|
  {
    assert a + "." + b == a + ("." + b);
    LeadingDigitsOfNumber(a, "." + b);
  }

  /** A run of digits without a point converts to its integer value. */
  lemma ToFloatIntegerValue(a: string)
    requires AllDigits(a) && a != []
    ensures AllPriceChars(a)
    ensures ToFloat(a) == Success(Decimal(DigitValue(a), 0))
  {
    LeadingDigitsOfNumber(a, "");
    assert a + "" == a;
  }

  /** What the selector found on the page. */
  datatype PriceElement =
    | NoContainer          // `page.find(...)` returned None
    | NoElement            // the container holds no price element, so `[0]` fails
    | Found(text: string)  // the price element's text

  const CryptoMisspelled := "Crypto name must be spelled correctly"

  lemma PriceCharsAccepted(text: string)
    ensures AllPriceChars(PriceChars(text))
    ensures ToFloat(PriceChars(text)).Success? <==> HasDigit(text) && multiset(text)['.'] <= 1
  {
    var f := PriceChars(text);
    ToFloatAccepts(f);
    FilterCounts(text, IsPriceChar);
    assert multiset(f)['.'] == multiset(text)['.'];
    if HasDigit(text) {
      var i :| 0 <= i < |text| && IsDigit(text[i]);
      assert multiset(f)[text[i]] > 0;
      assert text[i] in f;
    }
  }

  /** `crypto_price` after the download: a missing container is re-raised with its own message,
      a missing `span` is an IndexError, and otherwise the filtered text is converted. */
  function CryptoPrice(e: PriceElement): (r: Result<Decimal, PyError>)
    ensures e.NoContainer? ==> r == Failure(AttributeError(CryptoMisspelled))
    ensures e.NoElement? ==> r == Failure(IndexError)
    ensures e.Found? ==> (r.Success? <==> HasDigit(e.text) && multiset(e.text)['.'] <= 1)
    ensures e.Found? && r.Failure? ==> r.error == ValueError
  {
    match e
    case NoContainer => Failure(AttributeError(CryptoMisspelled))
    case NoElement => Failure(IndexError)
    case Found(text) =>
      PriceCharsAccepted(text);
      ToFloat(PriceChars(text))
  }

  /** `stock_price` after the download: the same conversion, applied to the stripped text. */
  function StockPrice(e: PriceElement): (r: Result<Decimal, PyError>)
    ensures e.NoContainer? ==> r == Failure(AttributeError(NoneHasNoFindAll))
    ensures e.NoElement? ==> r == Failure(IndexError)
    ensures e.Found? ==> (r.Success? <==> HasDigit(e.text) && multiset(e.text)['.'] <= 1)
    ensures e.Found? && r.Failure? ==> r.error == ValueError
  {
    match e
    case NoContainer => Failure(AttributeError(NoneHasNoFindAll))
    case NoElement => Failure(IndexError)
    case Found(text) =>
      PriceCharsIgnoresStrip(text);
      PriceCharsAccepted(text);
      ToFloat(PriceChars(Strip(text)))
  }

  /** Whenever a price element is found, both paths produce the same outcome. */
  lemma PricePathsAgree(text: string)
    ensures CryptoPrice(Found(text)) == StockPrice(Found(text))
  {
    PriceCharsIgnoresStrip(text);
  }

  /** The worked example: "$1,234.56" keeps "1234.56", which converts to 1234.56 exactly. */
  lemma DollarExample()
    ensures PriceChars("$1,234.56") == "1234.56"
    ensures CryptoPrice(Found("$1,234.56")) == Success(Decimal(123456, 2))
    ensures Value(Decimal(123456, 2)) == 1234.56
  {
    var t := "$1,234.56";
    DollarFilter();
    DollarConvert();
    ValueExample();
  }

  lemma ValueExample()
    ensures Value(Decimal(123456, 2)) == 1234.56
  {
    assert Pow10(2) == 100;
    assert 1234.56 * 100.0 == 123456.0;
  }

  lemma DollarFilter()
    ensures PriceChars("$1,234.56") == "1234.56"
  {
    DollarHead();
    DollarTail();
    FilterAppend("$1,2", "34.56", IsPriceChar);
    assert "$1,2" + "34.56" == "$1,234.56";
    assert "12" + "34.56" == "1234.56";
  }

  lemma DollarHead()
    ensures PriceChars("$1,2") == "12"
  {
    KeepStep('2', "", "");
    KeepStep(',', "2", "2");
    KeepStep('1', ",2", "2");
    KeepStep('$', "1,2", "12");
  }

  lemma DollarTail()
    ensures PriceChars("34.56") == "34.56"
  {
    KeepStep('6', "", "");
    KeepStep('5', "6", "6");
    KeepStep('.', "56", "56");
    KeepStep('4', ".56", ".56");
    KeepStep('3', "4.56", "4.56");
  }

  lemma KeepStep(c: char, s: string, r: string)
    requires PriceChars(s) == r
    ensures PriceChars([c] + s) == (if IsPriceChar(c) then [c] + r else r)
  {
    assert ([c] + s)[1..] == s;
  }

  lemma DollarConvert()
    ensures ToFloat("1234.56") == Success(Decimal(123456, 2))
  {
    ToFloatPointValue("1234", "56");
    assert "1234" + "." + "56" == "1234.56";
    assert "1234" + "56" == "123456";
    DigitValueExample();
  }

  lemma DigitValueExample()
    ensures DigitValue("123456") == 123456
  {
    assert "123456"[..5] == "12345";
    assert "12345"[..4] == "1234";
    assert "1234"[..3] == "123";
    assert "123"[..2] == "12";
    assert "12"[..1] == "1";
    assert "1"[..0] == "";
  }
}
