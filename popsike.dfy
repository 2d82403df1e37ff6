/**
 * The sales-history scraper of scraper.py (`scrape_popsike`), from the rows of
 * the fetched page onwards.  A row is an abstract record of the elements the
 * selectors would find in it: the title anchor (its text and its `href`, if
 * any), the date element's text and the price box's text.
 *
 * The date pattern `[A-Z][a-z]{2}\s\d{1,2},\s\d{4}` and the price pattern
 * `[\d,]+` are modelled by hand: `DateMatchAt` is the match the regular
 * expression engine finds at one position (two-digit day tried first), and
 * `LastRun` is the last maximal run of digits and commas.
 */
module Popsike {
  import opened Wrappers
  import opened Text

  /** Prefix given to relative links that start with "..". */
  const SiteBase: string := "https://www.popsike.com/"
  /** Date used when a row has no date element. */
  const UnknownDate: string := "Unknown Date"
  /** Text after which the date element's useful part starts, when no date pattern matches. */
  const PollutionMarker: string := "register"
  /** Number of listings kept for display. */
  const DisplayLimit: nat := 5

  datatype TitleLink = TitleLink(text: string, href: Option<string>)

  datatype Row = Row(titleLink: Option<TitleLink>, date: Option<string>, priceBox: Option<string>)

  datatype Listing = Listing(title: string, date: string, priceValue: int, link: string)

  datatype PopsikeResult = PopsikeResult(listings: seq<Listing>, count: nat)

  /** The search text sent upstream: every space becomes `+`, every other character is kept. */
  function SearchText(query: string): (r: string)
    ensures |r| == |query|
    ensures forall i :: 0 <= i < |query| ==> r[i] == if query[i] == ' ' then '+' else query[i]
  {
    if query == [] then [] else [if query[0] == ' ' then '+' else query[0]] + SearchText(query[1..])
  }

  /** The search text holds no space, and a space and a `+` in the query are sent alike. */
  lemma SearchTextSpec(query: string)
    ensures forall i :: 0 <= i < |SearchText(query)| ==> SearchText(query)[i] != ' '
    ensures SearchText("a b") == SearchText("a+b")
  {
    assert SearchText("a b")[1] == SearchText("a+b")[1];
    assert SearchText("a b") == SearchText("a+b");
  }

  // ---------------------------------------------------------------------------
  // Links

  /** Links not starting with "http" but starting with ".." are prefixed with the site base. */
  function RewriteLink(link: string): string
  {
    if StartsWith(link, "http") then link
    else if StartsWith(link, "..") then SiteBase + link
    else link
  }

  /**
   * The rewritten link starts with "http" exactly when the original started
   * with "http" or ".."; it is the original behind the site base when it
   * started with ".." but not "http", and the original itself otherwise; and
   * rewriting twice changes nothing more.
   */
  lemma RewriteLinkSpec(link: string)
    ensures StartsWith(RewriteLink(link), "http") <==> StartsWith(link, "http") || StartsWith(link, "..")
    ensures RewriteLink(link) == link || RewriteLink(link) == SiteBase + link
    ensures !StartsWith(link, "http") && StartsWith(link, "..") ==> RewriteLink(link) == SiteBase + link
    ensures StartsWith(link, "http") || !StartsWith(link, "..") ==> RewriteLink(link) == link
    ensures RewriteLink(RewriteLink(link)) == RewriteLink(link)
  {
    if !StartsWith(link, "http") && StartsWith(link, "..") {
      assert (SiteBase + link)[..4] == "http";
    }
  }

  // ---------------------------------------------------------------------------
  // Dates

  /** `w` is, as a whole, a text the date pattern matches: `Mon D, YYYY` or `Mon DD, YYYY`. */
  predicate IsDateText(w: string) {
    && (|w| == 11 || |w| == 12)
    && var d := |w| - 11;
    && IsUpper(w[0]) && IsLower(w[1]) && IsLower(w[2]) && IsSpace(w[3]) && IsDigit(w[4])
    && (d == 1 ==> IsDigit(w[5]))
    && w[5 + d] == ',' && IsSpace(w[6 + d])
    && IsDigit(w[7 + d]) && IsDigit(w[8 + d]) && IsDigit(w[9 + d]) && IsDigit(w[10 + d])
  }

  /**
   * The length of the date match starting at `i` (0 if none): the pattern
   * matches at `i` exactly when `n` is not 0, and a two-digit day is taken
   * whenever one matches.
   */
  function DateMatchAt(s: string, i: nat): (n: nat)
    requires i <= |s|
    ensures n == 0 || (i + n <= |s| && IsDateText(s[i..i + n]))
    ensures n == 0 <==>
      && !(i + 12 <= |s| && IsDateText(s[i..i + 12]))
      && !(i + 11 <= |s| && IsDateText(s[i..i + 11]))
    ensures i + 12 <= |s| && IsDateText(s[i..i + 12]) ==> n == 12
  {
    if i + 12 <= |s| && IsDateText(s[i..i + 12]) then 12
    else if i + 11 <= |s| && IsDateText(s[i..i + 11]) then 11
    else 0
  }

  /** Leftmost position at or after `from` where the date pattern matches. */
  function FindDate(s: string, from: nat): (r: Option<nat>)
    requires from <= |s|
    ensures r.Some? ==> from <= r.value <= |s| && DateMatchAt(s, r.value) > 0
    ensures r.Some? ==> forall j :: from <= j < r.value ==> DateMatchAt(s, j) == 0
    ensures r.None? ==> forall j :: from <= j <= |s| ==> DateMatchAt(s, j) == 0
    decreases |s| - from
  {
    if DateMatchAt(s, from) > 0 then Some(from)
    else if from == |s| then None
    else FindDate(s, from + 1)
  }

  /** Python's `re.search(pattern, s)` succeeds. */
  predicate HasDate(s: string) { FindDate(s, 0).Some? }

  /** A date match inside a slice is a match in the whole string. */
  lemma DateMatchInSlice(s: string, a: nat, b: nat, j: nat)
    requires a <= b <= |s| && j <= b - a
    ensures DateMatchAt(s[a..b], j) > 0 ==> DateMatchAt(s, a + j) > 0
  {
    var t := s[a..b];
    var n := DateMatchAt(t, j);
    if n > 0 {
      assert n == 11 || n == 12;
      var u, v := t[j..j + n], s[a + j..a + j + n];
      assert u == v by {
        forall k | 0 <= k < n ensures u[k] == v[k] {
          assert u[k] == t[j + k] == s[a + j + k];
        }
      }
      assert a + j + n <= |s| && IsDateText(s[a + j..a + j + n]);
    }
  }

  lemma HasDateInSlice(s: string, a: nat, b: nat)
    requires a <= b <= |s|
    ensures HasDate(s[a..b]) ==> HasDate(s)
  {
    if HasDate(s[a..b]) {
      var j := FindDate(s[a..b], 0).value;
      DateMatchInSlice(s, a, b, j);
    }
  }

  /** The date cleanup: the leftmost date match, else the stripped text after "register", else the text itself. */
  function CleanDate(raw: string): string
  {
    match FindDate(raw, 0)
    case Some(i) => raw[i..i + DateMatchAt(raw, i)]
    case None => if Contains(raw, PollutionMarker) then Strip(SplitLast(raw, PollutionMarker)) else raw
  }

  /** When the pattern matches, the result is the leftmost match, and it is a date text. */
  lemma CleanDateMatched(raw: string)
    requires HasDate(raw)
    ensures IsDateText(CleanDate(raw))
    ensures var i := FindDate(raw, 0).value;
      && i + |CleanDate(raw)| <= |raw| && CleanDate(raw) == raw[i..i + |CleanDate(raw)|]
      && forall j :: 0 <= j < i ==> DateMatchAt(raw, j) == 0
  {
  }

  /** The text after the last "register", stripped, is a slice of the input. */
  lemma {:induction false} AfterMarkerSlice(raw: string)
    ensures var r := Strip(SplitLast(raw, PollutionMarker));
      exists a, b :: 0 <= a <= b <= |raw| && r == raw[a..b]
  {
    SplitLastSpec(raw, PollutionMarker);
    StripOfSuffix(raw, |SplitLast(raw, PollutionMarker)|);
  }

  /** ... in which "register" no longer occurs and which has no surrounding whitespace. */
  lemma {:induction false} AfterMarkerClean(raw: string)
    ensures var r := Strip(SplitLast(raw, PollutionMarker));
      && !Contains(r, PollutionMarker)
      && (r == [] || (!IsSpace(r[0]) && !IsSpace(r[|r| - 1])))
  {
    var piece := SplitLast(raw, PollutionMarker);
    SplitLastSpec(raw, PollutionMarker);
    StripContains(piece, PollutionMarker);
    StripEnds(piece);
  }

  /** ... and it is the stripped text that follows an occurrence of "register". */
  lemma {:induction false} AfterMarkerFollows(raw: string)
    requires Contains(raw, PollutionMarker)
    ensures exists e :: && |PollutionMarker| <= e <= |raw|
                        && OccursAt(raw, PollutionMarker, e - |PollutionMarker|)
                        && !Contains(raw[e..], PollutionMarker)
                        && Strip(SplitLast(raw, PollutionMarker)) == Strip(raw[e..])
  {
    var piece := SplitLast(raw, PollutionMarker);
    SplitLastSpec(raw, PollutionMarker);
    SplitLastAfterSep(raw, PollutionMarker);
    var e := |raw| - |piece|;
    assert raw[e..] == piece;
  }

  /**
   * When the pattern does not match but "register" occurs, the result is the
   * stripped text after an occurrence of "register" that is not followed by
   * another one: a slice of the text with no surrounding whitespace in which
   * "register" no longer occurs.  When neither, the text is kept as it is.
   */
  lemma {:induction false} CleanDateFallback(raw: string)
    requires !HasDate(raw)
    ensures Contains(raw, PollutionMarker) ==>
      exists e :: && |PollutionMarker| <= e <= |raw|
                  && OccursAt(raw, PollutionMarker, e - |PollutionMarker|)
                  && !Contains(raw[e..], PollutionMarker)
                  && CleanDate(raw) == Strip(raw[e..])
    ensures Contains(raw, PollutionMarker) ==>
      && (exists a, b :: 0 <= a <= b <= |raw| && CleanDate(raw) == raw[a..b])
      && !Contains(CleanDate(raw), PollutionMarker)
      && (CleanDate(raw) == [] || (!IsSpace(CleanDate(raw)[0]) && !IsSpace(CleanDate(raw)[|CleanDate(raw)| - 1])))
    ensures !Contains(raw, PollutionMarker) ==> CleanDate(raw) == raw
  {
    if Contains(raw, PollutionMarker) {
      assert CleanDate(raw) == Strip(SplitLast(raw, PollutionMarker));
      AfterMarkerFollows(raw);
      AfterMarkerSlice(raw);
      AfterMarkerClean(raw);
    }
  }

  /** A missing date element gives "Unknown Date", which the cleanup keeps. */
  lemma UnknownDateKept()
    ensures CleanDate(UnknownDate) == UnknownDate
  {
    assert !IsSpace(UnknownDate[3]);
    assert !IsUpper(UnknownDate[1]);
    assert DateMatchAt(UnknownDate, 0) == 0;
    assert DateMatchAt(UnknownDate, 1) == 0;
    assert FindDate(UnknownDate, 0) == None;
    forall j | 0 <= j ensures !OccursAt(UnknownDate, PollutionMarker, j) {
      if j + 8 <= |UnknownDate| {
        assert UnknownDate[j..j + 8][0] == UnknownDate[j] != 'r';
      }
    }
    assert !Contains(UnknownDate, PollutionMarker);
  }

  /** Cleaning a cleaned date changes nothing. */
  lemma CleanDateIdempotent(raw: string)
    ensures CleanDate(CleanDate(raw)) == CleanDate(raw)
  {
    var r := CleanDate(raw);
    if HasDate(raw) {
      CleanDateMatched(raw);
      assert DateMatchAt(r, 0) == |r| by {
        if |r| == 12 { assert r[0..12] == r; } else { assert r[0..11] == r; }
      }
      assert r[0..|r|] == r;
    } else if Contains(raw, PollutionMarker) {
      CleanDateFallback(raw);
      var a, b :| 0 <= a <= b <= |raw| && r == raw[a..b];
      HasDateInSlice(raw, a, b);
      CleanDateFallback(r);
    }
  }

  // ---------------------------------------------------------------------------
  // Prices

  predicate IsRunChar(c: char) { IsDigit(c) || c == ',' }

  /** The length of the longest suffix of `s` made of digits and commas. */
  function TrailingRunLength(s: string): (n: nat)
    ensures n <= |s|
    ensures forall i :: |s| - n <= i < |s| ==> IsRunChar(s[i])
    ensures n < |s| ==> !IsRunChar(s[|s| - n - 1])
  {
    if |s| > 0 && IsRunChar(s[|s| - 1]) then TrailingRunLength(s[..|s| - 1]) + 1 else 0
  }

  /** One past the last digit or comma of `s`, or 0 if there is none. */
  function RunEnd(s: string): (e: nat)
    ensures e <= |s|
    ensures forall i :: e <= i < |s| ==> !IsRunChar(s[i])
    ensures e > 0 ==> IsRunChar(s[e - 1])
  {
    if s == [] then 0
    else if IsRunChar(s[|s| - 1]) then |s|
    else RunEnd(s[..|s| - 1])
  }

  /** The last of the matches `re.findall(r'[\d,]+', s)` returns, if there is one. */
  function LastRun(s: string): Option<string>
  {
    var e := RunEnd(s);
    if e == 0 then None else Some(s[e - TrailingRunLength(s[..e])..e])
  }

  /**
   * `LastRun` is the last maximal run of digits and commas: there is none
   * exactly when no character is a digit or comma; otherwise it is a non-empty
   * slice `s[a..b]` of such characters, not preceded by one, and nothing after
   * `b` is a digit or comma.
   */
  lemma LastRunSpec(s: string)
    ensures LastRun(s).None? <==> forall i :: 0 <= i < |s| ==> !IsRunChar(s[i])
    ensures LastRun(s).Some? ==>
      exists a, b :: && 0 <= a < b <= |s| && LastRun(s).value == s[a..b]
                     && (forall i :: a <= i < b ==> IsRunChar(s[i]))
                     && (a == 0 || !IsRunChar(s[a - 1]))
                     && (forall i :: b <= i < |s| ==> !IsRunChar(s[i]))
  {
    var e := RunEnd(s);
    if e > 0 {
      var p := s[..e];
      var n := TrailingRunLength(p);
      assert forall i :: 0 <= i < e ==> p[i] == s[i];
      assert n > 0 by { assert IsRunChar(p[e - 1]); }
    }
  }

  /** Python's `w.replace(',', '')`. */
  function RemoveCommas(w: string): string
  {
    if w == [] then [] else (if w[0] == ',' then [] else [w[0]]) + RemoveCommas(w[1..])
  }

  /** The numeric price of a price-box text: the last run with its commas removed, if that leaves a digit. */
  function PriceValue(text: string): Option<int>
  {
    match LastRun(text)
    case None => None
    case Some(run) =>
      var digits := RemoveCommas(run);
      if digits == [] then None else Some(DigitsValue(digits))
  }

  /** Comma removal works character by character: it distributes over concatenation. */
  lemma {:induction false} RemoveCommasConcat(a: string, b: string)
    ensures RemoveCommas(a + b) == RemoveCommas(a) + RemoveCommas(b)
    decreases |a|
  {
    if a == [] {
      assert a + b == b;
    } else {
      assert (a + b)[0] == a[0];
      assert (a + b)[1..] == a[1..] + b;
      RemoveCommasConcat(a[1..], b);
      var head := if a[0] == ',' then [] else [a[0]];
      calc {
        RemoveCommas(a + b);
        head + RemoveCommas(a[1..] + b);
        head + (RemoveCommas(a[1..]) + RemoveCommas(b));
        (head + RemoveCommas(a[1..])) + RemoveCommas(b);
      }
    }
  }

  /** A single character is dropped exactly when it is a comma. */
  lemma RemoveCommasSingle(c: char)
    ensures RemoveCommas([c]) == if c == ',' then [] else [c]
  {
    assert [c][1..] == [];
  }

  /** On a run of digits and commas, the result is all digits, and empty exactly when the run is all commas. */
  lemma {:induction false} RemoveCommasSpec(w: string)
    requires forall i :: 0 <= i < |w| ==> IsRunChar(w[i])
    ensures AllDigits(RemoveCommas(w))
    ensures RemoveCommas(w) == [] <==> forall i :: 0 <= i < |w| ==> w[i] == ','
  {
    if w != [] {
      RemoveCommasSpec(w[1..]);
      assert forall i :: 1 <= i < |w| ==> w[1..][i - 1] == w[i];
    }
  }

  /**
   * A price is found exactly when the last run holds a digit; it is then the
   * decimal value of that run's digits, read with the commas removed, and it
   * is never negative.
   */
  lemma PriceValueSpec(text: string)
    ensures PriceValue(text).Some? <==>
      LastRun(text).Some? && exists i :: 0 <= i < |LastRun(text).value| && IsDigit(LastRun(text).value[i])
    ensures PriceValue(text).Some? ==> PriceValue(text).value == DigitsValue(RemoveCommas(LastRun(text).value))
    ensures PriceValue(text).Some? ==> PriceValue(text).value >= 0
  {
    LastRunSpec(text);
    if LastRun(text).Some? {
      var run := LastRun(text).value;
      var a, b :| 0 <= a < b <= |text| && run == text[a..b] && (forall i :: a <= i < b ==> IsRunChar(text[i]));
      assert forall i :: 0 <= i < |run| ==> IsRunChar(run[i]) by {
        forall i | 0 <= i < |run| ensures IsRunChar(run[i]) { assert run[i] == text[a + i]; }
      }
      RemoveCommasSpec(run);
      DigitsValueNonNegative(RemoveCommas(run));
    }
  }

  // ---------------------------------------------------------------------------
  // Rows

  /** The listing a row yields, or None when the loop body skips it. */
  function ParseRow(row: Row): Option<Listing>
  {
    match row.titleLink
    case None => None
    case Some(anchor) =>
      if anchor.href.None? then None
      else
        var link := RewriteLink(anchor.href.value);
        var date := CleanDate(if row.date.Some? then row.date.value else UnknownDate);
        match row.priceBox
        case None => None
        case Some(text) =>
          match PriceValue(text)
          case None => None
          case Some(v) => Some(Listing(anchor.text, date, v, link))
  }

  /**
   * A row yields a listing exactly when it has a title anchor with an `href`
   * and a price box whose text holds a price; the listing carries the anchor
   * text, the rewritten link, the cleaned date and that price.
   */
  lemma ParseRowSpec(row: Row)
    ensures ParseRow(row).Some? <==>
      row.titleLink.Some? && row.titleLink.value.href.Some? && row.priceBox.Some? && PriceValue(row.priceBox.value).Some?
    ensures ParseRow(row).Some? ==>
      var l := ParseRow(row).value;
      && l.title == row.titleLink.value.text
      && l.link == RewriteLink(row.titleLink.value.href.value)
      && l.date == CleanDate(if row.date.Some? then row.date.value else UnknownDate)
      && Some(l.priceValue) == PriceValue(row.priceBox.value)
  {
  }

  /** The listings collected from `rows`, in order. */
  function ParseAll(rows: seq<Row>): seq<Listing>
  {
    if rows == [] then []
    else
      var init := ParseAll(rows[..|rows| - 1]);
      match ParseRow(rows[|rows| - 1])
      case None => init
      case Some(l) => init + [l]
  }

  /** Rows are processed in source order: the listings of `a + b` are those of `a` followed by those of `b`. */
  lemma {:induction false} ParseAllConcat(a: seq<Row>, b: seq<Row>)
    ensures ParseAll(a + b) == ParseAll(a) + ParseAll(b)
    decreases |b|
  {
    if b == [] {
      assert a + b == a;
    } else {
      var b' := b[..|b| - 1];
      assert (a + b)[..|a + b| - 1] == a + b';
      assert (a + b)[|a + b| - 1] == b[|b| - 1];
      ParseAllConcat(a, b');
      match ParseRow(b[|b| - 1])
      case None =>
      case Some(l) =>
        assert ParseAll(a) + (ParseAll(b') + [l]) == (ParseAll(a) + ParseAll(b')) + [l];
    }
  }

  /** A single row contributes exactly its own listing, or nothing when it is skipped. */
  lemma ParseAllSingle(row: Row)
    ensures ParseAll([row]) == if ParseRow(row).Some? then [ParseRow(row).value] else []
  {
    assert [row][..0] == [];
  }

  /** At most one listing per row. */
  lemma {:induction false} ParseAllLength(rows: seq<Row>)
    ensures |ParseAll(rows)| <= |rows|
  {
    if rows != [] {
      ParseAllLength(rows[..|rows| - 1]);
    }
  }

  /** When no row yields a listing, nothing is collected. */
  lemma {:induction false} ParseAllNone(rows: seq<Row>)
    requires forall i :: 0 <= i < |rows| ==> ParseRow(rows[i]).None?
    ensures ParseAll(rows) == []
  {
    if rows != [] {
      var init := rows[..|rows| - 1];
      assert forall i :: 0 <= i < |init| ==> ParseRow(init[i]).None? by {
        forall i | 0 <= i < |init| ensures ParseRow(init[i]).None? {
          assert init[i] == rows[i];
        }
      }
      ParseAllNone(init);
    }
  }

  /** A row that yields a listing puts that listing among the collected ones. */
  lemma {:induction false} ParseAllSome(rows: seq<Row>, j: nat)
    requires j < |rows| && ParseRow(rows[j]).Some?
    ensures ParseAll(rows) != []
  {
    var a, c := rows[..j + 1], rows[j + 1..];
    assert rows == a + c;
    ParseAllConcat(a, c);
    assert a[..j] == rows[..j] && a[j] == rows[j];
    assert ParseAll(a) == ParseAll(rows[..j]) + [ParseRow(rows[j]).value];
    assert |ParseAll(rows)| == |ParseAll(a)| + |ParseAll(c)|;
  }

  /** Nothing is collected exactly when no row yields a listing. */
  lemma ParseAllEmpty(rows: seq<Row>)
    ensures ParseAll(rows) == [] <==> forall i :: 0 <= i < |rows| ==> ParseRow(rows[i]).None?
  {
    if forall i :: 0 <= i < |rows| ==> ParseRow(rows[i]).None? {
      ParseAllNone(rows);
    } else {
      var j :| 0 <= j < |rows| && ParseRow(rows[j]).Some?;
      ParseAllSome(rows, j);
    }
  }

  function Take(items: seq<Listing>, n: nat): seq<Listing>
  {
    if |items| <= n then items else items[..n]
  }

  /** The whole scrape, from the rows of the page to the result. */
  function PopsikeFromRows(rows: seq<Row>): Option<PopsikeResult>
  {
    var items := ParseAll(rows);
    if items == [] then None else Some(PopsikeResult(Take(items, DisplayLimit), |items|))
  }

  /**
   * The result is absent exactly when no row yields a listing; otherwise it
   * holds the first five listings in source order and the count of all of them.
   */
  lemma PopsikeResultSpec(rows: seq<Row>)
    ensures PopsikeFromRows(rows).None? <==> forall i :: 0 <= i < |rows| ==> ParseRow(rows[i]).None?
    ensures PopsikeFromRows(rows).Some? ==>
      var items, r := ParseAll(rows), PopsikeFromRows(rows).value;
      && r.count == |items| <= |rows|
      && r.listings == items[..if |items| < DisplayLimit then |items| else DisplayLimit]
  {
    ParseAllEmpty(rows);
    ParseAllLength(rows);
  }

  /**
   * `scrape_popsike` after the page is fetched: walks the rows, skipping those
   * that fail to parse, and keeps the first five listings and the count.
   */
  method ScrapePopsike(rows: seq<Row>) returns (r: Option<PopsikeResult>)
    ensures r == PopsikeFromRows(rows)
  {
    var items: seq<Listing> := [];
    var i := 0;
    while i < |rows|
      invariant 0 <= i <= |rows|
      invariant items == ParseAll(rows[..i])
    {
      var row := rows[i];
      assert rows[..i + 1][..i] == rows[..i];
      assert rows[..i + 1][i] == row;
      i := i + 1;
      if row.titleLink.None? {
        continue;
      }
      var title := row.titleLink.value.text;
      if row.titleLink.value.href.None? {
        continue;  // the failed attribute lookup is caught by the per-row handler
      }
      var link := RewriteLink(row.titleLink.value.href.value);
      var date := if row.date.Some? then row.date.value else UnknownDate;
      date := CleanDate(date);
      if row.priceBox.None? {
        continue;
      }
      var price := PriceValue(row.priceBox.value);
      if price.None? {
        continue;
      }
      items := items + [Listing(title, date, price.value, link)];
    }
    assert rows[..i] == rows;
    if |items| == 0 {
      return None;
    }
    r := Some(PopsikeResult(Take(items, DisplayLimit), |items|));
  }
}
