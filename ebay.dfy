/**
 * The sold-listings scraper of scraper.py (`scrape_ebay_sold`), from the rows
 * of the fetched page onwards.  A row is an abstract record: its markup text
 * (for the "no title" marker test) and the optional title, price and link
 * elements the selectors would find in it.
 *
 * Prices are exact decimal values (the number the cleaned price text denotes)
 * rather than binary floating-point numbers.
 */
module Ebay {
  import opened Wrappers
  import opened Text

  /** Rows whose markup contains this are placeholders and are skipped. */
  const NoTitleMarker: string := "s-item__no-title"
  /** Link used when a row has no link element. */
  const MissingLink: string := "#"
  /** Qualifier appended to the query before it is sent. */
  const Qualifier: string := " vinyl record"
  /** Number of listings kept for display. */
  const DisplayLimit: nat := 5

  /** A link element; it may lack an `href` attribute. */
  datatype Anchor = Anchor(href: Option<string>)

  datatype Row = Row(markup: string, title: Option<string>, price: Option<string>, link: Option<Anchor>)

  datatype SoldListing = SoldListing(title: string, price: string, priceValue: real, link: string)

  datatype Stats = Stats(averagePrice: real, minPrice: real, maxPrice: real, count: nat)

  datatype EbayResult = EbayResult(soldListings: seq<SoldListing>, stats: Stats)

  /**
   * What one row contributes: a listing, nothing, or an exception that escapes
   * the row loop (a link element without `href` is looked up outside the
   * per-row handler, and the whole scrape then yields nothing).
   */
  datatype RowOutcome = Parsed(listing: SoldListing) | Skipped | Aborted

  /** The search text sent upstream. */
  function SearchText(query: string): string { query + Qualifier }

  /** Distinct queries are sent as distinct search texts. */
  lemma SearchTextInjective(a: string, b: string)
    ensures SearchText(a) == SearchText(b) ==> a == b
  {
    if SearchText(a) == SearchText(b) {
      assert |a| == |b|;
      assert a == SearchText(a)[..|a|];
    }
  }

  // ---------------------------------------------------------------------------
  // Price cleaning and parsing

  predicate IsPriceChar(c: char) { IsDigit(c) || c == '.' }

  predicate AllPriceChars(s: string) { forall i :: 0 <= i < |s| ==> IsPriceChar(s[i]) }

  /** The price text with every character other than a digit or `.` removed. */
  function CleanPrice(s: string): string
  {
    if s == [] then [] else (if IsPriceChar(s[0]) then [s[0]] else []) + CleanPrice(s[1..])
  }

  /** Cleaning keeps a character exactly when it is a digit or `.`, and keeps the order. */
  lemma {:induction false} CleanPriceConcat(a: string, b: string)
    ensures CleanPrice(a + b) == CleanPrice(a) + CleanPrice(b)
  {
    if a == [] {
      assert a + b == b;
    } else {
      var head := if IsPriceChar(a[0]) then [a[0]] else [];
      assert (a + b)[0] == a[0];
      assert (a + b)[1..] == a[1..] + b;
      CleanPriceConcat(a[1..], b);
      calc {
        CleanPrice(a + b);
        head + CleanPrice(a[1..] + b);
        head + (CleanPrice(a[1..]) + CleanPrice(b));
        (head + CleanPrice(a[1..])) + CleanPrice(b);
      }
    }
  }

  lemma CleanPriceSingle(c: char)
    ensures CleanPrice([c]) == if IsPriceChar(c) then [c] else []
  {
    assert [c][1..] == [];
  }

  /** The cleaned text holds only digits and dots, and text made only of those is left as it is. */
  lemma {:induction false} CleanPriceSpec(s: string)
    ensures AllPriceChars(CleanPrice(s))
    ensures |CleanPrice(s)| <= |s|
    ensures AllPriceChars(s) ==> CleanPrice(s) == s
    ensures (forall i :: 0 <= i < |s| ==> !IsPriceChar(s[i])) ==> CleanPrice(s) == []
  {
    if s != [] {
      CleanPriceSpec(s[1..]);
      assert s == [s[0]] + s[1..];
    }
  }

  lemma CleanPriceIdempotent(s: string)
    ensures CleanPrice(CleanPrice(s)) == CleanPrice(s)
  {
    CleanPriceSpec(s);
    CleanPriceSpec(CleanPrice(s));
  }

  /** A one-character occurrence of "." is a dot at that index. */
  lemma DotAt(t: string, k: int)
    requires 0 <= k < |t|
    ensures OccursAt(t, ".", k) <==> t[k] == '.'
  {
    assert t[k..k + 1] == [t[k]];
  }

  /** Where the first dot of `t` is, if any. */
  lemma FirstDot(t: string)
    ensures FindFrom(t, ".", 0).None? <==> forall j :: 0 <= j < |t| ==> t[j] != '.'
    ensures FindFrom(t, ".", 0).Some? ==>
      var k := FindFrom(t, ".", 0).value;
      k < |t| && t[k] == '.' && forall j :: 0 <= j < k ==> t[j] != '.'
  {
    forall j | 0 <= j < |t| ensures OccursAt(t, ".", j) <==> t[j] == '.' {
      DotAt(t, j);
    }
  }

  lemma NoDotAllDigits(t: string)
    requires AllPriceChars(t)
    requires !Contains(t, ".")
    ensures AllDigits(t)
  {
    FirstDot(t);
  }

  /**
   * Python's `float()` applied to a string of digits and dots: digits with at
   * most one dot and at least one digit.
   */
  function ParseFloat(t: string): Option<real>
    requires AllPriceChars(t)
  {
    match FindFrom(t, ".", 0)
    case None => if t == [] then None else Some(DigitsValue(t) as real)
    case Some(k) =>
      var whole, frac := t[..k], t[k + 1..];
      if Contains(frac, ".") || (whole == [] && frac == []) then None
      else Some(DecimalValue(whole, frac))
  }

  /** The number written `whole.frac`. */
  function DecimalValue(whole: string, frac: string): real
  {
    DigitsValue(whole) as real + DigitsValue(frac) as real / Pow10(|frac|) as real
  }

  /** Python's float literal grammar restricted to digits and dots: `d+`, `d+.`, `d+.d+` or `.d+`. */
  predicate IsFloatLiteral(t: string) {
    || (|t| > 0 && AllDigits(t))
    || (|t| > 1 && exists k :: 0 <= k < |t| && t[k] == '.' && AllDigits(t[..k]) && AllDigits(t[k + 1..]))
  }

  /** `ParseFloat` accepts exactly the float literals. */
  lemma ParseFloatAccepts(t: string)
    requires AllPriceChars(t)
    ensures ParseFloat(t).Some? <==> IsFloatLiteral(t)
  {
    FirstDot(t);
    match FindFrom(t, ".", 0)
    case None =>
      NoDotAllDigits(t);
    case Some(k) =>
      var whole, frac := t[..k], t[k + 1..];
      assert !AllDigits(t) by { assert !IsDigit(t[k]); }
      if Contains(frac, ".") {
        FirstDot(frac);
        var j := FindFrom(frac, ".", 0).value;
        assert t[k + 1 + j] == '.';
        forall k' | 0 <= k' < |t| && t[k'] == '.'
          ensures !(AllDigits(t[..k']) && AllDigits(t[k' + 1..]))
        {
          if k' == k {
            assert !IsDigit(t[k' + 1..][j]);
          } else {
            assert k < k';
            assert !IsDigit(t[..k'][k]);
          }
        }
      } else if whole == [] && frac == [] {
        assert |t| == 1;
      } else {
        NoDotAllDigits(frac);
        assert AllDigits(whole);
        assert |t| > 1;
      }
  }

  /** In `a.b` with `a` made of digits, the first dot is the one after `a`. */
  lemma FirstDotAfterDigits(a: string, b: string)
    requires AllDigits(a)
    ensures FindFrom(a + "." + b, ".", 0) == Some(|a|)
  {
    var t := a + "." + b;
    FirstDot(t);
    assert t[|a|] == '.';
  }

  /** The value of `a.b` is `a + b / 10^|b|`. */
  lemma ParseFloatValue(a: string, b: string)
    requires AllDigits(a) && AllDigits(b)
    requires |a| + |b| > 0
    ensures AllPriceChars(a + "." + b)
    ensures ParseFloat(a + "." + b) == Some(DecimalValue(a, b))
  {
    var t := a + "." + b;
    assert AllPriceChars(t) by {
      forall i | 0 <= i < |t| ensures IsPriceChar(t[i]) {
        if i < |a| { assert t[i] == a[i]; } else if i > |a| { assert t[i] == b[i - |a| - 1]; }
      }
    }
    FirstDotAfterDigits(a, b);
    assert t[..|a|] == a;
    assert t[|a| + 1..] == b;
    assert !Contains(b, ".") by { FirstDot(b); }
    assert !(a == [] && b == []);
  }

  /** The value of a digit string is its number. */
  lemma ParseFloatDigits(a: string)
    requires AllDigits(a) && |a| > 0
    ensures AllPriceChars(a)
    ensures ParseFloat(a) == Some(DigitsValue(a) as real)
  {
    FirstDot(a);
  }

  // ---------------------------------------------------------------------------
  // Rows

  /** What the loop body does with one row. */
  function ParseRow(row: Row): RowOutcome
  {
    if Contains(row.markup, NoTitleMarker) then Skipped
    else if row.title.None? || row.price.None? then Skipped
    else if row.link.Some? && row.link.value.href.None? then Aborted
    else
      var link := if row.link.Some? then row.link.value.href.value else MissingLink;
      var clean := CleanPrice(row.price.value);
      CleanPriceSpec(row.price.value);
      match ParseFloat(clean)
      case None => Skipped
      case Some(v) => Parsed(SoldListing(row.title.value, row.price.value, v, link))
  }

  /**
   * A row yields a listing exactly when it carries no "no title" marker, has a
   * title and a price, has either no link element or one with an `href`, and
   * its cleaned price text is a float literal; the listing keeps the raw price
   * text, uses "#" for a missing link, and its price value is what `float()`
   * reads from the cleaned price text.
   */
  lemma ParseRowSpec(row: Row)
    ensures ParseRow(row).Parsed? <==>
      && !Contains(row.markup, NoTitleMarker)
      && row.title.Some? && row.price.Some?
      && (row.link.None? || row.link.value.href.Some?)
      && AllPriceChars(CleanPrice(row.price.value))
      && IsFloatLiteral(CleanPrice(row.price.value))
    ensures ParseRow(row).Aborted? <==>
      !Contains(row.markup, NoTitleMarker) && row.title.Some? && row.price.Some? &&
      row.link.Some? && row.link.value.href.None?
    ensures ParseRow(row).Parsed? ==>
      var l := ParseRow(row).listing;
      && l.title == row.title.value
      && l.price == row.price.value
      && l.link == (if row.link.None? then "#" else row.link.value.href.value)
      && ParseFloat(CleanPrice(row.price.value)) == Some(l.priceValue)
  {
    if row.price.Some? {
      CleanPriceSpec(row.price.value);
      ParseFloatAccepts(CleanPrice(row.price.value));
    }
  }

  /** The listings collected from `rows` in order, or None once a row aborts the scrape. */
  function ParseAll(rows: seq<Row>): Option<seq<SoldListing>>
  {
    if rows == [] then Some([])
    else
      match ParseAll(rows[..|rows| - 1])
      case None => None
      case Some(items) =>
        match ParseRow(rows[|rows| - 1])
        case Aborted => None
        case Skipped => Some(items)
        case Parsed(l) => Some(items + [l])
  }

  /** The listings a row contributes on its own. */
  function Contribution(row: Row): seq<SoldListing>
  {
    if ParseRow(row).Parsed? then [ParseRow(row).listing] else []
  }

  /** A row that passes every check and whose cleaned price reads as `v` adds exactly that listing to the walk. */
  lemma RowYields(rows: seq<Row>, i: nat, v: real)
    requires i < |rows| && ParseAll(rows[..i]).Some?
    requires var row := rows[i];
      && !Contains(row.markup, NoTitleMarker) && row.title.Some? && row.price.Some?
      && (row.link.None? || row.link.value.href.Some?)
      && AllPriceChars(CleanPrice(row.price.value)) && ParseFloat(CleanPrice(row.price.value)) == Some(v)
    ensures var row := rows[i];
      ParseAll(rows[..i + 1]) == Some(ParseAll(rows[..i]).value +
        [SoldListing(row.title.value, row.price.value, v, if row.link.Some? then row.link.value.href.value else MissingLink)])
  {
    ParseAllStep(rows, i);
  }

  /** A row missing its title or price, marked "no title", or with an unreadable price leaves the walk as it was. */
  lemma RowSkipped(rows: seq<Row>, i: nat)
    requires i < |rows| && ParseAll(rows[..i]).Some?
    requires var row := rows[i];
      || Contains(row.markup, NoTitleMarker) || row.title.None? || row.price.None?
      || (&& (row.link.None? || row.link.value.href.Some?)
          && AllPriceChars(CleanPrice(row.price.value))
          && ParseFloat(CleanPrice(row.price.value)).None?)
    ensures ParseAll(rows[..i + 1]) == ParseAll(rows[..i])
  {
    ParseAllStep(rows, i);
    assert ParseAll(rows[..i]).value + [] == ParseAll(rows[..i]).value;
  }

  /** One more row: the walk so far extended by what that row does. */
  lemma ParseAllStep(rows: seq<Row>, i: nat)
    requires i < |rows| && ParseAll(rows[..i]).Some?
    ensures ParseAll(rows[..i + 1]) ==
      if ParseRow(rows[i]).Aborted? then None else Some(ParseAll(rows[..i]).value + Contribution(rows[i]))
  {
    assert rows[..i + 1][..i] == rows[..i];
    assert rows[..i + 1][i] == rows[i];
    if ParseRow(rows[i]).Skipped? {
      assert ParseAll(rows[..i]).value + [] == ParseAll(rows[..i]).value;
    }
  }

  /** The scrape aborts exactly when some row aborts. */
  lemma {:induction false} ParseAllAborts(rows: seq<Row>)
    ensures ParseAll(rows).None? <==> exists i :: 0 <= i < |rows| && ParseRow(rows[i]).Aborted?
  {
    if rows != [] {
      var init := rows[..|rows| - 1];
      ParseAllAborts(init);
      if exists i :: 0 <= i < |init| && ParseRow(init[i]).Aborted? {
        var i :| 0 <= i < |init| && ParseRow(init[i]).Aborted?;
        assert rows[i] == init[i];
      }
      if exists i :: 0 <= i < |rows| && ParseRow(rows[i]).Aborted? {
        var i :| 0 <= i < |rows| && ParseRow(rows[i]).Aborted?;
        if i < |init| { assert init[i] == rows[i]; }
      }
    }
  }

  /** Rows are processed in source order: the listings of `a + b` are those of `a` followed by those of `b`. */
  lemma {:induction false} ParseAllConcat(a: seq<Row>, b: seq<Row>)
    requires ParseAll(a).Some? && ParseAll(b).Some?
    ensures ParseAll(a + b) == Some(ParseAll(a).value + ParseAll(b).value)
    decreases |b|
  {
    if b == [] {
      assert a + b == a;
      assert ParseAll(b) == Some([]);
      assert ParseAll(a).value + [] == ParseAll(a).value;
    } else {
      var b' := b[..|b| - 1];
      var last := b[|b| - 1];
      assert (a + b)[..|a + b| - 1] == a + b';
      assert (a + b)[|a + b| - 1] == last;
      assert ParseAll(b').Some?;
      ParseAllConcat(a, b');
      var xs, ys := ParseAll(a).value, ParseAll(b').value;
      match ParseRow(last)
      case Aborted =>
      case Skipped =>
      case Parsed(l) =>
        assert xs + (ys + [l]) == (xs + ys) + [l];
    }
  }

  /** A single row contributes its own listing, if it parses. */
  lemma ParseAllSingle(row: Row)
    requires !ParseRow(row).Aborted?
    ensures ParseAll([row]) == Some(Contribution(row))
  {
    assert [row][..0] == [];
    assert [row][0] == row;
    assert ParseAll([]) == Some([]);
    if ParseRow(row).Parsed? {
      assert [] + [ParseRow(row).listing] == [ParseRow(row).listing];
    }
  }

  // ---------------------------------------------------------------------------
  // Summary

  function PricesOf(items: seq<SoldListing>): (r: seq<real>)
    ensures |r| == |items|
    ensures forall i :: 0 <= i < |items| ==> r[i] == items[i].priceValue
  {
    if items == [] then [] else PricesOf(items[..|items| - 1]) + [items[|items| - 1].priceValue]
  }

  /** One more listing adds its price at the end of the price list. */
  lemma PricesOfAppend(items: seq<SoldListing>, l: SoldListing)
    ensures PricesOf(items + [l]) == PricesOf(items) + [l.priceValue]
  {
    assert (items + [l])[..|items|] == items;
  }

  function Sum(s: seq<real>): real
  {
    if s == [] then 0.0 else Sum(s[..|s| - 1]) + s[|s| - 1]
  }

  /** Python's `min` over a non-empty list. */
  function SeqMin(s: seq<real>): (m: real)
    requires |s| > 0
    ensures m in s
    ensures forall i :: 0 <= i < |s| ==> m <= s[i]
  {
    if |s| == 1 then s[0]
    else
      var m := SeqMin(s[..|s| - 1]);
      if s[|s| - 1] < m then s[|s| - 1] else m
  }

  /** Python's `max` over a non-empty list. */
  function SeqMax(s: seq<real>): (m: real)
    requires |s| > 0
    ensures m in s
    ensures forall i :: 0 <= i < |s| ==> s[i] <= m
  {
    if |s| == 1 then s[0]
    else
      var m := SeqMax(s[..|s| - 1]);
      if s[|s| - 1] > m then s[|s| - 1] else m
  }

  lemma {:induction false} SumBounds(s: seq<real>, lo: real, hi: real)
    requires forall i :: 0 <= i < |s| ==> lo <= s[i] <= hi
    ensures |s| as real * lo <= Sum(s) <= |s| as real * hi
  {
    if s != [] {
      var s' := s[..|s| - 1];
      SumBounds(s', lo, hi);
      assert |s| as real * lo == |s'| as real * lo + lo;
      assert |s| as real * hi == |s'| as real * hi + hi;
    }
  }

  /** Dividing a bound on `n` copies by `n`. */
  lemma DivideBound(x: real, n: real, lo: real, hi: real)
    requires n > 0.0
    requires n * lo <= x <= n * hi
    ensures lo <= x / n <= hi
  {
    var q := x / n;
    assert x == q * n;
    assert n * (q - lo) >= 0.0;
    assert n * (hi - q) >= 0.0;
  }

  /** The average of values that all lie within `[lo, hi]` lies within it too. */
  lemma AverageWithin(s: seq<real>, lo: real, hi: real)
    requires |s| > 0
    requires forall i :: 0 <= i < |s| ==> lo <= s[i] <= hi
    ensures lo <= Sum(s) / |s| as real <= hi
  {
    SumBounds(s, lo, hi);
    DivideBound(Sum(s), |s| as real, lo, hi);
  }

  function Take(items: seq<SoldListing>, n: nat): seq<SoldListing>
  {
    if |items| <= n then items else items[..n]
  }

  /** The result built from the collected listings: nothing if there are none. */
  function Summarise(items: seq<SoldListing>): Option<EbayResult>
  {
    if items == [] then None
    else
      var prices := PricesOf(items);
      Some(EbayResult(Take(items, DisplayLimit),
                      Stats(Sum(prices) / |prices| as real, SeqMin(prices), SeqMax(prices), |prices|)))
  }

  /** The primary row list, or the alternate one when the primary is empty. */
  function SelectRows(primary: seq<Row>, alternate: seq<Row>): seq<Row>
  {
    if primary == [] then alternate else primary
  }

  /** The whole scrape, from the two row lists of the page to the result. */
  function EbayFromRows(primary: seq<Row>, alternate: seq<Row>): Option<EbayResult>
  {
    match ParseAll(SelectRows(primary, alternate))
    case None => None
    case Some(items) => Summarise(items)
  }

  /** A value in the price list is the price of some listing. */
  lemma PriceOfSome(items: seq<SoldListing>, v: real)
    requires v in PricesOf(items)
    ensures exists i :: 0 <= i < |items| && items[i].priceValue == v
  {
    var i :| 0 <= i < |PricesOf(items)| && PricesOf(items)[i] == v;
  }

  /**
   * The summary of the parsed listings is absent exactly when there are none;
   * otherwise it shows the first five in source order while its statistics
   * cover every parsed price: the count is the number of listings, the
   * minimum and maximum bound every price and are attained, and the average
   * is the exact mean of all prices, which lies between them.
   */
  lemma {:induction false} SummariseSpec(items: seq<SoldListing>)
    ensures Summarise(items).None? <==> items == []
    ensures Summarise(items).Some? ==>
      var r := Summarise(items).value;
      && r.stats.count == |items|
      && r.soldListings == items[..if |items| < DisplayLimit then |items| else DisplayLimit]
      && (forall i :: 0 <= i < |items| ==> r.stats.minPrice <= items[i].priceValue <= r.stats.maxPrice)
      && (exists i :: 0 <= i < |items| && items[i].priceValue == r.stats.minPrice)
      && (exists i :: 0 <= i < |items| && items[i].priceValue == r.stats.maxPrice)
      && r.stats.averagePrice == Sum(PricesOf(items)) / |items| as real
      && r.stats.minPrice <= r.stats.averagePrice <= r.stats.maxPrice
  {
    if items != [] {
      var prices := PricesOf(items);
      var lo, hi := SeqMin(prices), SeqMax(prices);
      assert Summarise(items) ==
        Some(EbayResult(Take(items, DisplayLimit), Stats(Sum(prices) / |prices| as real, lo, hi, |prices|)));
      AverageWithin(prices, lo, hi);
      PriceOfSome(items, lo);
      PriceOfSome(items, hi);
      assert Take(items, DisplayLimit) == items[..if |items| < DisplayLimit then |items| else DisplayLimit];
    }
  }

  /** The scrape yields nothing exactly when a row aborted or no price parsed. */
  lemma EbayResultSpec(primary: seq<Row>, alternate: seq<Row>)
    ensures EbayFromRows(primary, alternate).None? <==>
      (exists i :: 0 <= i < |SelectRows(primary, alternate)| && ParseRow(SelectRows(primary, alternate)[i]).Aborted?)
      || ParseAll(SelectRows(primary, alternate)) == Some([])
  {
    var rows := SelectRows(primary, alternate);
    ParseAllAborts(rows);
    if ParseAll(rows).Some? {
      SummariseSpec(ParseAll(rows).value);
    }
  }

  /** The alternate row list is used only when the primary one is empty. */
  lemma SelectRowsSpec(primary: seq<Row>, alternate: seq<Row>)
    ensures primary != [] ==> SelectRows(primary, alternate) == primary
    ensures primary == [] ==> SelectRows(primary, alternate) == alternate
  {
  }

  /**
   * `scrape_ebay_sold` after the page is fetched: walks the selected rows,
   * appending a listing and its price for each row that parses, and
   * summarises them.
   */
  method ScrapeEbaySold(primary: seq<Row>, alternate: seq<Row>) returns (r: Option<EbayResult>)
    ensures r == EbayFromRows(primary, alternate)
  {
    var listings := primary;
    if |listings| == 0 {
      listings := alternate;
    }
    var items: seq<SoldListing> := [];
    var prices: seq<real> := [];
    var i := 0;
    while i < |listings|
      invariant 0 <= i <= |listings|
      invariant ParseAll(listings[..i]) == Some(items)
      invariant prices == PricesOf(items)
    {
      var row := listings[i];
      if !Contains(row.markup, NoTitleMarker) && row.title.Some? && row.price.Some? {
        if row.link.Some? && row.link.value.href.None? {
          // the failed attribute lookup escapes the loop; the scrape yields nothing
          assert ParseRow(listings[i]).Aborted?;
          ParseAllAborts(listings);
          return None;
        }
        var link := if row.link.Some? then row.link.value.href.value else MissingLink;
        var clean := CleanPrice(row.price.value);
        CleanPriceSpec(row.price.value);
        var value := ParseFloat(clean);
        if value.Some? {
          var listing := SoldListing(row.title.value, row.price.value, value.value, link);
          RowYields(listings, i, value.value);
          PricesOfAppend(items, listing);
          prices := prices + [value.value];
          items := items + [listing];
        } else {
          RowSkipped(listings, i);
        }
      } else {
        RowSkipped(listings, i);
      }
      i := i + 1;
    }
    assert listings[..i] == listings;
    if |prices| == 0 {
      return None;
    }
    var average := Sum(prices) / |prices| as real;
    r := Some(EbayResult(Take(items, DisplayLimit), Stats(average, SeqMin(prices), SeqMax(prices), |prices|)));
  }
}
