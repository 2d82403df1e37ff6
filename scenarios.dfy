/**
 * Worked cases of the scrapers and the aggregator on concrete inputs: the
 * price strings the eBay scraper meets, the statistics of a small page, the
 * cache expiry boundary, and the partial- and total-failure cycles.
 */
module Scenarios {
  import opened Wrappers
  import opened Text
  import opened Cache
  import opened Ebay
  import Aggregator
  import Popsike

  /** Cleaning a text made of four pieces whose cleanings are known. */
  lemma CleanFour(a: string, b: string, c: string, d: string, x: string, y: string, z: string, w: string)
    requires CleanPrice(a) == x && CleanPrice(b) == y && CleanPrice(c) == z && CleanPrice(d) == w
    ensures CleanPrice(a + b + c + d) == x + y + z + w
  {
    CleanPriceConcat(a + b + c, d);
    CleanPriceConcat(a + b, c);
    CleanPriceConcat(a, b);
  }

  /** The numeric pieces of the worked prices are kept whole. */
  lemma NumbersKept()
    ensures CleanPrice("200.00") == "200.00"
    ensures CleanPrice("45.99") == "45.99"
    ensures CleanPrice("10.00") == "10.00"
    ensures CleanPrice("20.00") == "20.00"
  {
    var p, q, r, t := "200.00", "45.99", "10.00", "20.00";
    assert AllPriceChars(p) && AllPriceChars(q) && AllPriceChars(r) && AllPriceChars(t);
    CleanPriceSpec(p);
    CleanPriceSpec(q);
    CleanPriceSpec(r);
    CleanPriceSpec(t);
  }

  /** The words and signs around them are dropped. */
  lemma WordsDropped()
    ensures CleanPrice("Sold $") == ""
    ensures CleanPrice(" to $") == ""
  {
    var p, q := "Sold $", " to $";
    assert forall i :: 0 <= i < |p| ==> !IsPriceChar(p[i]);
    assert forall i :: 0 <= i < |q| ==> !IsPriceChar(q[i]);
    CleanPriceSpec(p);
    CleanPriceSpec(q);
  }

  /** The four pieces of "$1,200.00", cleaned one by one. */
  lemma ThousandsPieces()
    ensures CleanPrice("$" + "1" + "," + "200.00") == "" + "1" + "" + "200.00"
  {
    CleanPriceSingle('$');
    CleanPriceSingle('1');
    CleanPriceSingle(',');
    NumbersKept();
    CleanFour("$", "1", ",", "200.00", "", "1", "", "200.00");
  }

  /** The thousands separator of "$1,200.00" is dropped along with the currency sign ... */
  lemma ThousandsSeparatorPrice()
    ensures CleanPrice("$1,200.00") == "1200.00"
  {
    ThousandsPieces();
    assert "$" + "1" + "," + "200.00" == "$1,200.00";
    assert "" + "1" + "" + "200.00" == "1200.00";
  }

  /** The digit strings of the worked prices denote their numbers. */
  lemma DigitValues()
    ensures DigitsValue("1200") == 1200 && DigitsValue("00") == 0
    ensures DigitsValue("45") == 45 && DigitsValue("99") == 99
  {
    assert "1200"[..3] == "120" && "120"[..2] == "12" && "12"[..1] == "1" && "1"[..0] == "";
    assert "00"[..1] == "0" && "0"[..0] == "";
    assert "45"[..1] == "4" && "4"[..0] == "";
    assert "99"[..1] == "9" && "9"[..0] == "";
  }

  /** ... and what remains, "1200.00", reads as 1200. */
  lemma ThousandsSeparatorValue()
    ensures "1200" + "." + "00" == "1200.00"
    ensures ParseFloat("1200" + "." + "00") == Some(1200.0)
  {
    ParseFloatValue("1200", "00");
    DigitValues();
  }

  /** The two pieces of "Sold $45.99", cleaned one by one. */
  lemma SoldPieces()
    ensures CleanPrice("Sold $" + "45.99") == "" + "45.99"
  {
    WordsDropped();
    NumbersKept();
    CleanPriceConcat("Sold $", "45.99");
  }

  /** The leading word of "Sold $45.99" is discarded ... */
  lemma SoldPrefixPrice()
    ensures CleanPrice("Sold $45.99") == "45.99"
  {
    SoldPieces();
    assert "Sold $" + "45.99" == "Sold $45.99";
    assert "" + "45.99" == "45.99";
  }

  /** ... and what remains, "45.99", reads as 45.99. */
  lemma SoldPrefixValue()
    ensures "45" + "." + "99" == "45.99"
    ensures ParseFloat("45" + "." + "99") == Some(45.99)
  {
    ParseFloatValue("45", "99");
    DigitValues();
  }

  /** The four pieces of a price range, cleaned one by one. */
  lemma RangePieces()
    ensures CleanPrice("$" + "10.00" + " to $" + "20.00") == "" + "10.00" + "" + "20.00"
  {
    CleanPriceSingle('$');
    NumbersKept();
    WordsDropped();
    CleanFour("$", "10.00", " to $", "20.00", "", "10.00", "", "20.00");
  }

  /** A price range fuses into one string with two decimal points ... */
  lemma PriceRangePrice()
    ensures CleanPrice("$10.00 to $20.00") == "10.0020.00"
  {
    RangePieces();
    assert "$" + "10.00" + " to $" + "20.00" == "$10.00 to $20.00";
    assert "" + "10.00" + "" + "20.00" == "10.0020.00";
  }

  /** ... which does not parse, so a row showing a range is skipped. */
  lemma PriceRangeValue()
    ensures ParseFloat("10.0020.00") == None
  {
    var w, f := "10", "0020.00";
    FirstDotAfterDigits(w, f);
    assert w + "." + f == "10.0020.00";
    DotAt(f, 4);
  }

  /** In "1,200$1,590" the last run of digits and commas is "1,590". */
  lemma PopsikeLastRun()
    ensures Popsike.LastRun("1,200$1,590") == Some("1,590")
  {
    var t := "1,200$1,590";
    assert Popsike.RunEnd(t) == 11;
    assert t[..11] == t;
    assert t[..10] == "1,200$1,59" && t[..9] == "1,200$1,5" && t[..8] == "1,200$1,";
    assert t[..7] == "1,200$1" && t[..6] == "1,200$";
    assert Popsike.TrailingRunLength("1,200$") == 0;
    assert Popsike.TrailingRunLength(t) == 5;
    assert t[6..11] == "1,590";
  }

  /** Removing the commas of "1,590" leaves "1590", which denotes 1590. */
  lemma PopsikeRunDigits()
    ensures Popsike.RemoveCommas("1,590") == "1590"
    ensures DigitsValue("1590") == 1590
  {
    var w := "1,590";
    assert w[1..] == ",590" && w[2..] == "590" && w[3..] == "90" && w[4..] == "0";
    var d := "1590";
    assert d[..3] == "159" && d[..2] == "15" && d[..1] == "1" && d[..0] == "";
    assert DigitsValue("1") == 1;
    assert DigitsValue("15") == 15;
    assert DigitsValue("159") == 159;
  }

  /** A price box reading "1,200$1,590" gives the price of its last number, 1590. */
  lemma PopsikeLastNumberPrice()
    ensures Popsike.PriceValue("1,200$1,590") == Some(1590)
  {
    PopsikeLastRun();
    PopsikeRunDigits();
  }

  /**
   * Three listings priced 10, 20 and 30 summarise to an average of 20, a
   * minimum of 10, a maximum of 30 and a count of 3.
   */
  lemma ThreeListingStats(l1: SoldListing, l2: SoldListing, l3: SoldListing)
    requires l1.priceValue == 10.0 && l2.priceValue == 20.0 && l3.priceValue == 30.0
    ensures Summarise([l1, l2, l3]) == Some(EbayResult([l1, l2, l3], Stats(20.0, 10.0, 30.0, 3)))
  {
    var items := [l1, l2, l3];
    var prices := PricesOf(items);
    assert prices == [10.0, 20.0, 30.0];
    assert prices[..2] == [10.0, 20.0] && prices[..2][..1] == [10.0];
    assert Sum(prices[..2][..1]) == 10.0 by { assert prices[..2][..1][..0] == []; }
    assert Sum(prices[..2]) == 30.0;
    assert Sum(prices) == 60.0;
    assert SeqMin(prices) == 10.0;
    assert SeqMax(prices) == 30.0;
  }

  /** An entry written at time t is still served just before t + TTL and no longer at t + TTL. */
  lemma ExpiryBoundary<T>(entries: map<string, Entry<T>>, key: string, data: T, t: int)
    ensures Lookup(Stored(entries, key, data, t), key, t + TtlMicros - 1) == Some(data)
    ensures Lookup(Stored(entries, key, data, t), key, t + TtlMicros) == None
  {
    ReadAfterWrite(entries, key, data, t, t + TtlMicros - 1);
    LookupSpec(Stored(entries, key, data, t), key, t + TtlMicros);
  }

  /**
   * The catalog source is down, eBay yields three listings and Popsike none:
   * the envelope carries only the eBay result, with a count of 3, and it is
   * cached.
   */
  lemma PartialFailure(
    entries: map<string, Entry<Aggregator.Envelope>>, readable: bool,
    query: string, readAt: int, writeAt: int, stamp: string,
    l1: SoldListing, l2: SoldListing, l3: SoldListing)
    requires Lookup(Loaded(entries, readable), query, readAt).None?
    requires l1.priceValue == 10.0 && l2.priceValue == 20.0 && l3.priceValue == 30.0
    ensures var src := Aggregator.Sources(None, Summarise([l1, l2, l3]), None);
      var o := Aggregator.Resolve(entries, readable, query, readAt, writeAt, stamp, src);
      && o.result.discogs.None? && o.result.popsike.None?
      && o.result.ebay.Some? && o.result.ebay.value.stats.count == 3
      && o.readable && query in o.entries && o.entries[query] == Entry(writeAt, o.result)
  {
    ThreeListingStats(l1, l2, l3);
    var src := Aggregator.Sources(None, Summarise([l1, l2, l3]), None);
    Aggregator.ResolveMiss(entries, readable, query, readAt, writeAt, stamp, src);
  }

  /**
   * Every source fails: the envelope holds only the query and the time, and
   * the very next call fetches afresh instead of hitting the cache.
   */
  lemma TotalFailure(
    entries: map<string, Entry<Aggregator.Envelope>>, readable: bool,
    query: string, readAt: int, writeAt: int, stamp: string,
    readAt2: int, writeAt2: int, stamp2: string, src2: Aggregator.Sources)
    requires Lookup(Loaded(entries, readable), query, readAt).None?
    requires readAt <= readAt2
    ensures var src := Aggregator.Sources(None, None, None);
      var o := Aggregator.Resolve(entries, readable, query, readAt, writeAt, stamp, src);
      var o2 := Aggregator.Resolve(o.entries, o.readable, query, readAt2, writeAt2, stamp2, src2);
      && o.result == Aggregator.Envelope(query, None, None, None, stamp)
      && o.entries == entries && o.readable == readable
      && o2.result == Aggregator.Envelope(query, src2.discogs, src2.ebay, src2.popsike, stamp2)
  {
    var src := Aggregator.Sources(None, None, None);
    Aggregator.ResolveMiss(entries, readable, query, readAt, writeAt, stamp, src);
    Aggregator.TotalFailureNotCached(entries, readable, query, readAt, writeAt, stamp, src, readAt2, writeAt2, stamp2, src2);
  }
}
