/** Selector replay (scraper_logic.py): turn a listing page into product
    URLs, scrape every URL with the product selector set, and hand the rows
    to the CSV writer. */
module Replay {
  import opened Maybe
  import opened Json
  import opened Dom
  import opened World
  import opened Storage
  import opened Sitemaps

  // ---------------------------------------------------------------------
  // Listing page to product URLs

  /** What one card contributes: the href of its first `product_link` match. */
  datatype CardLink = LinkRaised | NoLink | Link(url: string)

  /** `link = card.select_one(product_link); if link and link.get("href")`. */
  function LinkOf<E>(eng: Engine<E>, card: E, link: string): (r: CardLink)
    ensures r.LinkRaised? <==> eng.select(card, link).Raised?
    ensures r.Link? <==> SelectOne(eng, card, link).Match? && HasHref(eng, SelectOne(eng, card, link).element)
    ensures r.Link? ==> Some(r.url) == eng.href(SelectOne(eng, card, link).element) && r.url != ""
  {
    match SelectOne(eng, card, link)
    case Threw => LinkRaised
    case NoMatch => NoLink
    case Match(a) => if HasHref(eng, a) then Link(eng.href(a).value) else NoLink
  }

  /** The card loop of `listing_scraper`: at most one URL per card, in card
      order; `None` when some `select_one` raises. */
  function CardLinks<E>(eng: Engine<E>, cards: seq<E>, link: string): (r: Option<seq<string>>)
    ensures r.None? <==> exists i :: 0 <= i < |cards| && LinkOf(eng, cards[i], link).LinkRaised?
    ensures r.Some? ==> |r.value| <= |cards|
    ensures r.Some? ==> forall u :: u in r.value ==> u != "" && exists i :: 0 <= i < |cards| && LinkOf(eng, cards[i], link) == Link(u)
    ensures r.Some? ==> forall i :: 0 <= i < |cards| && LinkOf(eng, cards[i], link).Link? ==> LinkOf(eng, cards[i], link).url in r.value
  {
    if cards == [] then Some([])
    else
      var rest := CardLinks(eng, cards[1..], link);
      assert forall i :: 1 <= i < |cards| ==> cards[i] == cards[1..][i - 1];
      match LinkOf(eng, cards[0], link)
      case LinkRaised => None
      case NoLink => rest
      case Link(u) => if rest.None? then None else Some([u] + rest.value)
  }

  /** Card order is kept: the links of two runs of cards are the links of
      the first run followed by those of the second. */
  lemma {:induction false} CardLinksAppend<E>(eng: Engine<E>, a: seq<E>, b: seq<E>, link: string)
    ensures CardLinks(eng, a + b, link) ==
      if CardLinks(eng, a, link).Some? && CardLinks(eng, b, link).Some?
      then Some(CardLinks(eng, a, link).value + CardLinks(eng, b, link).value)
      else None
  {
    if a == [] {
      assert a + b == b;
      if CardLinks(eng, b, link).Some? {
        assert [] + CardLinks(eng, b, link).value == CardLinks(eng, b, link).value;
      }
    } else {
      assert (a + b)[1..] == a[1..] + b;
      CardLinksAppend(eng, a[1..], b, link);
      if LinkOf(eng, a[0], link).Link? && CardLinks(eng, a[1..], link).Some? && CardLinks(eng, b, link).Some? {
        var u := LinkOf(eng, a[0], link).url;
        assert [u] + (CardLinks(eng, a[1..], link).value + CardLinks(eng, b, link).value)
            == ([u] + CardLinks(eng, a[1..], link).value) + CardLinks(eng, b, link).value;
      }
    }
  }

  /** One card: its link, nothing, or the raise of its `select_one`. */
  lemma CardLinksOne<E>(eng: Engine<E>, card: E, link: string)
    ensures CardLinks(eng, [card], link) ==
      match LinkOf(eng, card, link)
      case LinkRaised => None
      case NoLink => Some([])
      case Link(u) => Some([u])
  {
    assert [card][1..] == [];
    assert CardLinks(eng, [], link) == Some([]);
    if LinkOf(eng, card, link).Link? {
      assert [LinkOf(eng, card, link).url] + [] == [LinkOf(eng, card, link).url];
    }
  }

  /** `[urljoin(base_url or "", u) for u in product_urls]`; with no `<base>`
      tag the base is "" and `urljoin` returns each URL unchanged. */
  function ResolveAll<E>(env: Env<E>, base: string, hrefs: seq<string>): (r: seq<string>)
    ensures |r| == |hrefs|
    ensures base == "" ==> r == hrefs
  {
    seq(|hrefs|, i requires 0 <= i < |hrefs| => if base == "" then hrefs[i] else env.join(base, hrefs[i]))
  }

  // ---------------------------------------------------------------------
  // De-duplication, `list(dict.fromkeys(urls))`

  predicate NoDuplicates<T(==,!new)>(s: seq<T>) {
    forall i, j :: 0 <= i < j < |s| ==> s[i] != s[j]
  }

  /** Where `x` first occurs in `s`. */
  function FirstIndex<T(==,!new)>(s: seq<T>, x: T): (k: nat)
    requires x in s
    ensures k < |s| && s[k] == x && x !in s[..k]
  {
    if s[0] == x then 0
    else
      var k := FirstIndex(s[1..], x);
      assert s[..k + 1] == [s[0]] + s[1..][..k];
      k + 1
  }

  /** Any position holding `x` with no earlier `x` is the first index. */
  lemma FirstIndexUnique<T(!new)>(s: seq<T>, x: T, k: nat)
    requires k < |s| && s[k] == x && x !in s[..k]
    ensures FirstIndex(s, x) == k
  {
  }

  /** `dict.fromkeys`: walking left to right, a key is appended the first
      time it is seen. The result holds each input element exactly once,
      ordered by where each first occurs. */
  function Dedup<T(==,!new)>(s: seq<T>): (r: seq<T>)
    ensures NoDuplicates(r)
    ensures forall x :: x in r <==> x in s
    ensures forall i, j :: 0 <= i < j < |r| ==> FirstIndex(s, r[i]) < FirstIndex(s, r[j])
    decreases |s|
  {
    if s == [] then []
    else
      var n := |s| - 1;
      var p := Dedup(s[..n]);
      assert forall x :: x in s <==> x in s[..n] || x == s[n];
      forall x | x in s[..n] ensures FirstIndex(s, x) == FirstIndex(s[..n], x) {
        var k := FirstIndex(s[..n], x);
        assert s[..n][..k] == s[..k];
        FirstIndexUnique(s, x, k);
      }
      if s[n] in p then p
      else
        assert FirstIndex(s, s[n]) == n by {
          assert s[..n] == s[..n];
          FirstIndexUnique(s, s[n], n);
        }
        p + [s[n]]
  }

  /** De-duplication never lengthens a sequence. */
  lemma {:induction false} DedupNoLonger<T(!new)>(s: seq<T>)
    ensures |Dedup(s)| <= |s|
    decreases |s|
  {
    if s != [] {
      DedupNoLonger(s[..|s| - 1]);
    }
  }

  /** Appending an element appends it to the de-duplicated sequence
      exactly when it has not been seen before. */
  lemma DedupSnoc<T(!new)>(s: seq<T>, x: T)
    ensures Dedup(s + [x]) == if x in s then Dedup(s) else Dedup(s) + [x]
  {
    assert (s + [x])[..|s|] == s;
  }

  /** The listing scenario: cards linking to h1, h2, h1 give [h1, h2]. */
  lemma DedupKeepsFirstSeen<T(!new)>(h1: T, h2: T)
    requires h1 != h2
    ensures Dedup([h1, h2, h1]) == [h1, h2]
  {
    DedupPair(h1, h2);
    DedupSnoc([h1, h2], h1);
    assert [h1, h2] + [h1] == [h1, h2, h1];
  }

  /** Two different keys keep their order. */
  lemma DedupPair<T(!new)>(h1: T, h2: T)
    requires h1 != h2
    ensures Dedup([h1, h2]) == [h1, h2]
  {
    DedupSnoc([], h1);
    assert [] + [h1] == [h1];
    DedupSnoc([h1], h2);
    assert [h1] + [h2] == [h1, h2];
  }

  /** Three cards linking to h1, h2, h1 yield the URLs h1, h2. */
  lemma CardsToUniqueUrls<E>(eng: Engine<E>, c1: E, c2: E, c3: E, link: string, h1: string, h2: string)
    requires LinkOf(eng, c1, link) == Link(h1) && LinkOf(eng, c2, link) == Link(h2) && LinkOf(eng, c3, link) == Link(h1)
    requires h1 != h2
    ensures CardLinks(eng, [c1, c2, c3], link) == Some([h1, h2, h1])
    ensures Dedup(CardLinks(eng, [c1, c2, c3], link).value) == [h1, h2]
  {
    assert [c1, c2, c3][1..] == [c2, c3] && [c2, c3][1..] == [c3] && [c3][1..] == [];
    assert CardLinks(eng, [], link) == Some([]);
    assert [h1] + [] == [h1];
    assert CardLinks(eng, [c3], link) == Some([h1]);
    assert [h2] + [h1] == [h2, h1] && [h1] + [h2, h1] == [h1, h2, h1];
    assert CardLinks(eng, [c2, c3], link) == Some([h2, h1]);
    DedupKeepsFirstSeen(h1, h2);
  }

  // ---------------------------------------------------------------------
  // Scraping one product page

  /** One field of `scrape_product`: `Some("")` for a falsy selector or no
      match, the first match's stripped text otherwise, `None` when the
      engine raises (a malformed selector, or a value that is not a string). */
  function FieldValue<E>(eng: Engine<E>, doc: E, selector: Value): Option<string>
  {
    if !Truthy(selector) then Some("")
    else if !selector.Str? then None
    else match SelectOne(eng, doc, selector.s)
      case Threw => None
      case NoMatch => Some("")
      case Match(el) => Some(eng.text(el))
  }

  /** `scrape_product`: one value per selector field, same keys in the same
      order; `None` exactly when some field raises. */
  function ScrapeProduct<E>(eng: Engine<E>, doc: E, selectors: Dict<Value>): (r: Option<Dict<string>>)
    ensures r.Some? ==> Keys(r.value) == Keys(selectors)
    ensures r.Some? ==> forall i :: 0 <= i < |selectors| ==> FieldValue(eng, doc, selectors[i].1) == Some(r.value[i].1)
    ensures r.None? <==> exists i :: 0 <= i < |selectors| && FieldValue(eng, doc, selectors[i].1).None?
  {
    if selectors == [] then Some([])
    else
      var v := FieldValue(eng, doc, selectors[0].1);
      var rest := ScrapeProduct(eng, doc, selectors[1..]);
      FieldRaisesShift(eng, doc, selectors);
      if v.None? || rest.None? then None
      else
        assert [selectors[0]] + selectors[1..] == selectors;
        ScrapedCons(eng, doc, selectors[0], selectors[1..], v.value, rest.value);
        Some([(selectors[0].0, v.value)] + rest.value)
  }

  /** Some field of a non-empty selector dict raises exactly when the first
      one does or some later one does. */
  lemma FieldRaisesShift<E>(eng: Engine<E>, doc: E, selectors: Dict<Value>)
    requires selectors != []
    ensures (exists i :: 0 <= i < |selectors| && FieldValue(eng, doc, selectors[i].1).None?) <==>
      (FieldValue(eng, doc, selectors[0].1).None?
       || exists i :: 0 <= i < |selectors[1..]| && FieldValue(eng, doc, selectors[1..][i].1).None?)
  {
    if i :| 0 <= i < |selectors| && FieldValue(eng, doc, selectors[i].1).None? {
      if i > 0 {
        assert selectors[1..][i - 1] == selectors[i];
      }
    }
    if i :| 0 <= i < |selectors[1..]| && FieldValue(eng, doc, selectors[1..][i].1).None? {
      assert selectors[i + 1] == selectors[1..][i];
    }
  }

  /** Putting the first field's value in front of the rest's row gives a
      row for the whole selector dict. */
  lemma ScrapedCons<E>(eng: Engine<E>, doc: E, first: (string, Value), tail: Dict<Value>, x: string, rest: Dict<string>)
    requires FieldValue(eng, doc, first.1) == Some(x)
    requires Keys(rest) == Keys(tail)
    requires forall i :: 0 <= i < |tail| ==> FieldValue(eng, doc, tail[i].1) == Some(rest[i].1)
    ensures var selectors, row := [first] + tail, [(first.0, x)] + rest;
      && Keys(row) == Keys(selectors)
      && forall i :: 0 <= i < |selectors| ==> FieldValue(eng, doc, selectors[i].1) == Some(row[i].1)
  {
    var selectors, row := [first] + tail, [(first.0, x)] + rest;
    assert Keys(row) == [first.0] + Keys(rest);
    assert Keys(selectors) == [first.0] + Keys(tail);
    forall i | 1 <= i < |selectors| ensures FieldValue(eng, doc, selectors[i].1) == Some(row[i].1) {
      assert selectors[i] == tail[i - 1] && row[i] == rest[i - 1];
    }
  }

  /** The key sequence of every emitted row: the selector keys, then `url`
      unless a selector field is already called `url`. */
  function RowKeys(selectors: Dict<Value>): seq<string> {
    if "url" in Keys(selectors) then Keys(selectors) else Keys(selectors) + ["url"]
  }

  /** The row a URL yields when it is fetched: its scraped fields plus `url`. */
  function RowFor<E>(env: Env<E>, selectors: Dict<Value>, url: string): (r: Option<Dict<string>>)
    requires DistinctKeys(selectors)
    requires Fetches(env, url)
    ensures r.None? <==> ScrapeProduct(env.eng, env.eng.parse(env.fetch(url).html), selectors).None?
    ensures r.Some? ==> Keys(r.value) == RowKeys(selectors) && DistinctKeys(r.value)
    ensures r.Some? ==> Lookup(r.value, "url") == Some(url)
    ensures r.Some? ==> forall k :: k != "url" ==>
      Lookup(r.value, k) == Lookup(ScrapeProduct(env.eng, env.eng.parse(env.fetch(url).html), selectors).value, k)
  {
    match ScrapeProduct(env.eng, env.eng.parse(env.fetch(url).html), selectors)
    case None => None
    case Some(row) =>
      assert DistinctKeys(row) by {
        assert forall i :: 0 <= i < |row| ==> row[i].0 == Keys(selectors)[i];
      }
      Some(Put(row, "url", url))
  }

  // ---------------------------------------------------------------------
  // The row loops

  /** The URLs whose fetch yields a page, in order. */
  function Fetchable<E>(env: Env<E>, urls: seq<string>): (r: seq<string>)
    ensures |r| <= |urls|
    ensures forall u :: u in r <==> u in urls && Fetches(env, u)
    ensures (forall u :: u in urls ==> Fetches(env, u)) ==> r == urls
  {
    if urls == [] then []
    else
      var rest := Fetchable(env, urls[1..]);
      assert forall u :: u in urls <==> u == urls[0] || u in urls[1..];
      if Fetches(env, urls[0]) then [urls[0]] + rest else rest
  }

  /** URL order is kept: the fetched URLs of two runs are those of the
      first run, then those of the second. */
  lemma {:induction false} FetchableAppend<E>(env: Env<E>, a: seq<string>, b: seq<string>)
    ensures Fetchable(env, a + b) == Fetchable(env, a) + Fetchable(env, b)
  {
    if a == [] {
      assert a + b == b;
    } else {
      assert (a + b)[1..] == a[1..] + b && (a + b)[0] == a[0];
      FetchableAppend(env, a[1..], b);
      if Fetches(env, a[0]) {
        assert [a[0]] + (Fetchable(env, a[1..]) + Fetchable(env, b))
            == ([a[0]] + Fetchable(env, a[1..])) + Fetchable(env, b);
      }
    }
  }

  /** One URL is kept exactly when its fetch yields a page. */
  lemma FetchableOne<E>(env: Env<E>, u: string)
    ensures Fetchable(env, [u]) == if Fetches(env, u) then [u] else []
  {
    assert [u][1..] == [];
  }

  /** The `url` column of a list of rows. */
  function UrlColumn(rows: seq<Dict<string>>): (c: seq<string>)
    ensures |c| == |rows|
  {
    seq(|rows|, i requires 0 <= i < |rows| => Lookup(rows[i], "url").GetOr(""))
  }

  /** `rows` are, one for one, the rows the URLs `us` yield. */
  ghost predicate RowsMatch<E>(env: Env<E>, selectors: Dict<Value>, us: seq<string>, rows: seq<Dict<string>>)
    requires DistinctKeys(selectors)
  {
    && |us| == |rows|
    && forall i :: 0 <= i < |us| ==> Fetches(env, us[i]) && RowFor(env, selectors, us[i]) == Some(rows[i])
  }

  /** A matched URL and row in front of matched lists still match. */
  lemma RowsMatchCons<E>(env: Env<E>, selectors: Dict<Value>, u: string, row: Dict<string>,
                         us: seq<string>, rows: seq<Dict<string>>)
    requires DistinctKeys(selectors) && Fetches(env, u) && RowFor(env, selectors, u) == Some(row)
    requires RowsMatch(env, selectors, us, rows)
    ensures RowsMatch(env, selectors, [u] + us, [row] + rows)
  {
    var us', rows' := [u] + us, [row] + rows;
    forall i | 0 <= i < |us'| ensures Fetches(env, us'[i]) && RowFor(env, selectors, us'[i]) == Some(rows'[i]) {
      if i > 0 {
        assert us'[i] == us[i - 1] && rows'[i] == rows[i - 1];
      }
    }
  }

  /** Matched rows carry the URL column they came from and the row keys. */
  lemma RowsMatchColumns<E>(env: Env<E>, selectors: Dict<Value>, us: seq<string>, rows: seq<Dict<string>>)
    requires DistinctKeys(selectors) && RowsMatch(env, selectors, us, rows)
    ensures UrlColumn(rows) == us
    ensures forall row :: row in rows ==> Keys(row) == RowKeys(selectors) && DistinctKeys(row)
  {
    forall i | 0 <= i < |rows| ensures UrlColumn(rows)[i] == us[i] && Keys(rows[i]) == RowKeys(selectors) && DistinctKeys(rows[i]) {
      assert RowFor(env, selectors, us[i]) == Some(rows[i]);
    }
  }

  /** The row loop of both scrapers: every fetched URL gives one row, in URL
      order; a URL without a page is skipped; a fetch that raises is skipped
      when `skipRaised` (sitemap_scraper's `try`) and aborts otherwise
      (listing_scraper), and so does a selector that raises. */
  function Rows<E>(env: Env<E>, urls: seq<string>, selectors: Dict<Value>, skipRaised: bool): (r: Option<seq<Dict<string>>>)
    requires DistinctKeys(selectors)
    ensures r.Some? ==> RowsMatch(env, selectors, Fetchable(env, urls), r.value)
    ensures (forall u :: u in urls ==> env.fetch(u).FetchRaised?) ==>
      r == if skipRaised || urls == [] then Some([]) else None
    decreases |urls|
  {
    if urls == [] then Some([])
    else
      var rest := Rows(env, urls[1..], selectors, skipRaised);
      assert forall u :: u in urls[1..] ==> u in urls;
      if env.fetch(urls[0]).FetchRaised? then (if skipRaised then rest else None)
      else if !Fetches(env, urls[0]) then rest
      else match RowFor(env, selectors, urls[0])
        case None => None
        case Some(row) =>
          if rest.None? then None
          else
            RowsMatchCons(env, selectors, urls[0], row, Fetchable(env, urls[1..]), rest.value);
            Some([row] + rest.value)
  }

  /** What the row loop's output looks like from outside: the `url` column is
      exactly the fetched URLs, and every row has the row keys. */
  lemma RowsShape<E>(env: Env<E>, urls: seq<string>, selectors: Dict<Value>, skipRaised: bool)
    requires DistinctKeys(selectors) && Rows(env, urls, selectors, skipRaised).Some?
    ensures UrlColumn(Rows(env, urls, selectors, skipRaised).value) == Fetchable(env, urls)
    ensures forall row :: row in Rows(env, urls, selectors, skipRaised).value ==> Keys(row) == RowKeys(selectors) && DistinctKeys(row)
  {
    RowsMatchColumns(env, selectors, Fetchable(env, urls), Rows(env, urls, selectors, skipRaised).value);
  }

  /** What aborts the row loop at `u`: a raising fetch outside the
      sitemap's `try`, or a fetched page whose scrape raises. */
  predicate RowFails<E>(env: Env<E>, selectors: Dict<Value>, skipRaised: bool, u: string)
    requires DistinctKeys(selectors)
  {
    (!skipRaised && env.fetch(u).FetchRaised?) || (Fetches(env, u) && RowFor(env, selectors, u).None?)
  }

  predicate SomeRowFails<E>(env: Env<E>, urls: seq<string>, selectors: Dict<Value>, skipRaised: bool)
    requires DistinctKeys(selectors)
  {
    exists u :: u in urls && RowFails(env, selectors, skipRaised, u)
  }

  /** The row loop aborts exactly when some URL aborts it. */
  lemma {:induction false} RowsFail<E>(env: Env<E>, urls: seq<string>, selectors: Dict<Value>, skipRaised: bool)
    requires DistinctKeys(selectors)
    ensures Rows(env, urls, selectors, skipRaised).None? <==> SomeRowFails(env, urls, selectors, skipRaised)
  {
    if urls != [] {
      RowsFail(env, urls[1..], selectors, skipRaised);
      assert forall u :: u in urls <==> u == urls[0] || u in urls[1..];
      assert SomeRowFails(env, urls, selectors, skipRaised) <==>
        RowFails(env, selectors, skipRaised, urls[0]) || SomeRowFails(env, urls[1..], selectors, skipRaised);
    }
  }

  // ---------------------------------------------------------------------
  // The CSV gate

  /** A CSV file as `csv.DictWriter` writes it: header, then one line per row. */
  datatype Csv = Csv(path: seq<string>, header: seq<string>, lines: seq<seq<string>>)

  /** No file (no rows), a `ValueError` for a row with a key outside the
      header, or the file. */
  datatype Written = NoCsv | CsvRaised | CsvFile(csv: Csv)

  predicate HasExtraKey(row: Dict<string>, header: seq<string>) {
    exists j :: 0 <= j < |row| && row[j].0 !in header
  }

  /** One CSV line: each header column's value, `""` (DictWriter's restval)
      when the row lacks it. */
  function Line(header: seq<string>, row: Dict<string>): (l: seq<string>)
    ensures |l| == |header|
  {
    seq(|header|, j requires 0 <= j < |header| => Lookup(row, header[j]).GetOr(""))
  }

  /** `if not rows: return`, else a DictWriter whose fieldnames are the first
      row's keys. */
  function WriteCsv(path: seq<string>, rows: seq<Dict<string>>): (w: Written)
    ensures w.NoCsv? <==> rows == []
    ensures w.CsvRaised? <==> rows != [] && exists i :: 0 <= i < |rows| && HasExtraKey(rows[i], Keys(rows[0]))
    ensures w.CsvFile? ==> w.csv.path == path && w.csv.header == Keys(rows[0]) && |w.csv.lines| == |rows|
  {
    if rows == [] then NoCsv
    else
      var header := Keys(rows[0]);
      if exists i :: 0 <= i < |rows| && HasExtraKey(rows[i], header) then CsvRaised
      else CsvFile(Csv(path, header, seq(|rows|, i requires 0 <= i < |rows| => Line(header, rows[i]))))
  }

  /** Rows that all share the first row's keys never trip the writer. */
  lemma UniformRowsWrite(path: seq<string>, rows: seq<Dict<string>>, keys: seq<string>)
    requires forall row :: row in rows ==> Keys(row) == keys
    ensures rows != [] ==> WriteCsv(path, rows).CsvFile?
  {
    if rows == [] { return; }
    forall i | 0 <= i < |rows| ensures !HasExtraKey(rows[i], Keys(rows[0])) {
      assert rows[i] in rows && rows[0] in rows;
      forall j | 0 <= j < |rows[i]| ensures rows[i][j].0 in Keys(rows[0]) {
        assert rows[i][j].0 == Keys(rows[i])[j];
      }
    }
  }

  /** Pairs a header with a line. */
  function Zip(header: seq<string>, line: seq<string>): Dict<string>
    requires |header| == |line|
  {
    seq(|header|, j requires 0 <= j < |header| => (header[j], line[j]))
  }

  /** Reading a written line back under the header gives the row again. */
  lemma {:induction false} CsvLineRoundTrip(path: seq<string>, rows: seq<Dict<string>>, i: nat)
    requires WriteCsv(path, rows).CsvFile? && i < |rows|
    requires DistinctKeys(rows[i]) && Keys(rows[i]) == Keys(rows[0])
    ensures var c := WriteCsv(path, rows).csv; |c.lines[i]| == |c.header| && Zip(c.header, c.lines[i]) == rows[i]
  {
    var c := WriteCsv(path, rows).csv;
    assert c.lines[i] == Line(c.header, rows[i]);
    forall j | 0 <= j < |rows[i]| ensures Zip(c.header, c.lines[i])[j] == rows[i][j] {
      LookupAt(rows[i], j);
    }
  }

  /** Rows sharing one key sequence are all written, each line reading back
      under that header as its row. */
  lemma WrittenLinesReadBack(path: seq<string>, rows: seq<Dict<string>>, keys: seq<string>)
    requires rows != []
    requires forall row :: row in rows ==> Keys(row) == keys && DistinctKeys(row)
    ensures WriteCsv(path, rows).CsvFile?
    ensures var c := WriteCsv(path, rows).csv;
      c.header == keys && forall i :: 0 <= i < |rows| ==> |c.lines[i]| == |keys| && Zip(keys, c.lines[i]) == rows[i]
  {
    UniformRowsWrite(path, rows, keys);
    forall i | 0 <= i < |rows| ensures |WriteCsv(path, rows).csv.lines[i]| == |keys| && Zip(keys, WriteCsv(path, rows).csv.lines[i]) == rows[i] {
      assert rows[i] in rows && rows[0] in rows;
      CsvLineRoundTrip(path, rows, i);
    }
  }

  // ---------------------------------------------------------------------
  // The two scrapers

  /** How a replay run ends. */
  datatype Outcome = ReplayCrashed | NoRows | Wrote(csv: Csv)

  /** The end of both scrapers once the rows are in: no file for no rows,
      otherwise a file whose lines read back, under the header, as the rows. */
  function Emit(path: seq<string>, rows: seq<Dict<string>>, keys: seq<string>): (r: Outcome)
    requires forall row :: row in rows ==> Keys(row) == keys && DistinctKeys(row)
    ensures r.NoRows? <==> rows == []
    ensures r.Wrote? <==> rows != []
    ensures r.Wrote? ==> r.csv.path == path && r.csv.header == keys && |r.csv.lines| == |rows|
    ensures r.Wrote? ==> forall i :: 0 <= i < |rows| ==> |r.csv.lines[i]| == |keys| && Zip(keys, r.csv.lines[i]) == rows[i]
  {
    if rows == [] then NoRows
    else
      WrittenLinesReadBack(path, rows, keys);
      Wrote(WriteCsv(path, rows).csv)
  }

  /** `{base_dir}/CSV/{domain}/products.csv`, the domain taken from `url`. */
  function CsvPath<E>(env: Env<E>, baseDir: string, url: string): seq<string> {
    [baseDir, "CSV", DomainOf(env.host(url)), "products.csv"]
  }

  /** The card loop of STEP 2 of `listing_scraper`: the raw product hrefs
      of a listing page, or `None` when a listing selector is missing or
      raises. A page without cards gives no hrefs and never reads
      `product_link`. */
  function CardHrefs<E>(env: Env<E>, soup: E, listing: Dict<Value>): (r: Option<seq<string>>)
    ensures !HasStr(listing, "product_card") ==> r.None?
    ensures HasStr(listing, "product_card") ==>
      var found := env.eng.select(soup, Field(listing, "product_card"));
      && (found.Raised? ==> r.None?)
      && (found == Found([]) ==> r == Some([]))
      && (found.Found? && found.elements != [] ==>
            r == if HasStr(listing, "product_link")
                 then CardLinks(env.eng, found.elements, Field(listing, "product_link"))
                 else None)
    ensures r.Some? ==> forall u :: u in r.value ==> u != ""
  {
    match Lookup(listing, "product_card")
    case None => None
    case Some(card) =>
      if !card.Str? then None
      else match env.eng.select(soup, card.s)
        case Raised => None
        case Found(cards) =>
          if cards == [] then Some([])
          else match Lookup(listing, "product_link")
            case None => None
            case Some(link) => if !link.Str? then None else CardLinks(env.eng, cards, link.s)
  }

  /** STEP 2 of `listing_scraper`: the hrefs resolved against `<base href>`
      and de-duplicated, first occurrence first. */
  function ListingUrls<E>(env: Env<E>, soup: E, listing: Dict<Value>): (r: Option<seq<string>>)
    ensures r.None? <==> CardHrefs(env, soup, listing).None?
    ensures r.Some? ==> NoDuplicates(r.value)
    ensures r.Some? ==> forall u :: u in r.value <==> u in ResolveAll(env, env.baseHref(soup), CardHrefs(env, soup, listing).value)
    ensures r.Some? && env.baseHref(soup) == "" ==> forall u :: u in r.value <==> u in CardHrefs(env, soup, listing).value
    ensures r.Some? ==> |r.value| <= |CardHrefs(env, soup, listing).value|
    ensures r.Some? ==> var resolved := ResolveAll(env, env.baseHref(soup), CardHrefs(env, soup, listing).value);
      forall i, j :: 0 <= i < j < |r.value| ==> FirstIndex(resolved, r.value[i]) < FirstIndex(resolved, r.value[j])
  {
    match CardHrefs(env, soup, listing)
    case None => None
    case Some(hrefs) =>
      var urls := ResolveAll(env, env.baseHref(soup), hrefs);
      DedupNoLonger(urls);
      Some(Dedup(urls))
  }

  /** The listing replay reaches the CSV gate: the card walk works and finds
      some URL, the product selector file exists, and no URL aborts the row
      loop. */
  predicate ListingRuns<E>(env: Env<E>, html: string, listing: Dict<Value>, productFile: Option<Dict<Value>>)
    requires productFile.Some? ==> DistinctKeys(productFile.value)
  {
    var urls := ListingUrls(env, env.eng.parse(html), listing);
    urls.Some? && urls.value != [] && productFile.Some? && Rows(env, urls.value, productFile.value, false).Some?
  }

  /** `listing_scraper`: product URLs from the listing page, one row per
      fetched URL, then the CSV gate. */
  function ListingScraper<E>(env: Env<E>, html: string, listing: Dict<Value>, baseDir: string,
                             productFile: Option<Dict<Value>>): (r: Outcome)
    requires productFile.Some? ==> DistinctKeys(productFile.value)
    ensures ListingUrls(env, env.eng.parse(html), listing) == Some([]) ==> r == ReplayCrashed
    ensures productFile.None? ==> r == ReplayCrashed
    ensures r.ReplayCrashed? <==> !ListingRuns(env, html, listing, productFile)
    ensures ListingRuns(env, html, listing, productFile) ==>
      (r.Wrote? <==> Fetchable(env, ListingUrls(env, env.eng.parse(html), listing).value) != [])
    ensures r.Wrote? ==> (
      ListingUrls(env, env.eng.parse(html), listing).Some? && productFile.Some? &&
      var urls := ListingUrls(env, env.eng.parse(html), listing).value;
      Rows(env, urls, productFile.value, false).Some? &&
      var rows := Rows(env, urls, productFile.value, false).value;
      urls != [] && r.csv.path == CsvPath(env, baseDir, urls[0]) &&
      r.csv.header == RowKeys(productFile.value) &&
      UrlColumn(rows) == Fetchable(env, urls) &&
      0 < |r.csv.lines| == |rows| <= |urls| &&
      forall i :: 0 <= i < |rows| ==> |r.csv.lines[i]| == |r.csv.header| && Zip(r.csv.header, r.csv.lines[i]) == rows[i])
    ensures r.NoRows? ==> (
      ListingUrls(env, env.eng.parse(html), listing).Some? &&
      var urls := ListingUrls(env, env.eng.parse(html), listing).value;
      urls != [] && Fetchable(env, urls) == [])
  {
    var soup := env.eng.parse(html);
    match ListingUrls(env, soup, listing)
    case None => ReplayCrashed
    case Some(urls) =>
      if productFile.None? then ReplayCrashed
      else match Rows(env, urls, productFile.value, false)
        case None => ReplayCrashed
        case Some(rows) =>
          // `unique_urls[0]` is read before the no-rows check: IndexError.
          if urls == [] then ReplayCrashed
          else
            RowsShape(env, urls, productFile.value, false);
            Emit(CsvPath(env, baseDir, urls[0]), rows, RowKeys(productFile.value))
  }

  /** The sitemap replay reaches the CSV gate: the product selector file
      exists and no URL aborts the row loop. */
  predicate SitemapRuns<E>(env: Env<E>, root: Xml, productFile: Option<Dict<Value>>)
    requires productFile.Some? ==> DistinctKeys(productFile.value)
  {
    productFile.Some? && Rows(env, UrlsetLocs(root), productFile.value, true).Some?
  }

  /** `sitemap_scraper`: the top-level `<url><loc>` entries (no index
      indirection), one row per fetched URL, then the CSV gate. */
  function SitemapScraper<E>(env: Env<E>, root: Xml, baseDir: string, productFile: Option<Dict<Value>>): (r: Outcome)
    requires productFile.Some? ==> DistinctKeys(productFile.value)
    ensures productFile.None? ==> r == ReplayCrashed
    ensures productFile.Some? && (forall u :: u in UrlsetLocs(root) ==> env.fetch(u).FetchRaised?) ==> r == NoRows
    ensures r.ReplayCrashed? <==> !SitemapRuns(env, root, productFile)
    ensures SitemapRuns(env, root, productFile) ==> (r.Wrote? <==> Fetchable(env, UrlsetLocs(root)) != [])
    ensures r.Wrote? ==> (
      productFile.Some? &&
      var urls := UrlsetLocs(root);
      Rows(env, urls, productFile.value, true).Some? &&
      var rows := Rows(env, urls, productFile.value, true).value;
      urls != [] && r.csv.path == CsvPath(env, baseDir, urls[0]) &&
      r.csv.header == RowKeys(productFile.value) &&
      UrlColumn(rows) == Fetchable(env, urls) &&
      0 < |r.csv.lines| == |rows| <= |urls| &&
      forall i :: 0 <= i < |rows| ==> |r.csv.lines[i]| == |r.csv.header| && Zip(r.csv.header, r.csv.lines[i]) == rows[i])
    ensures r.NoRows? ==> Fetchable(env, UrlsetLocs(root)) == []
  {
    var urls := UrlsetLocs(root);
    if productFile.None? then ReplayCrashed
    else match Rows(env, urls, productFile.value, true)
      case None => ReplayCrashed
      case Some(rows) =>
        RowsShape(env, urls, productFile.value, true);
        // `if not all_rows`, then `if not urls`: the second test never fires
        // once a row exists, since every row comes from a URL.
        if rows == [] || urls == [] then NoRows
        else Emit(CsvPath(env, baseDir, urls[0]), rows, RowKeys(productFile.value))
  }

  // ---------------------------------------------------------------------
  // The replay loops inside a running event loop

  /** Both scrapers are called from inside `asyncio.run(get_user_input())`,
      so each `asyncio.run(html_collection(...))` of their loops raises.
      Then the listing replay crashes whatever its inputs. */
  lemma ListingNestedRunCrashes<E>(env: Env<E>, html: string, listing: Dict<Value>, baseDir: string,
                                   productFile: Option<Dict<Value>>)
    requires productFile.Some? ==> DistinctKeys(productFile.value)
    requires forall u :: env.fetch(u).FetchRaised?
    ensures ListingScraper(env, html, listing, baseDir, productFile) == ReplayCrashed
  {
    var urls := ListingUrls(env, env.eng.parse(html), listing);
    if urls.Some? && urls.value != [] && productFile.Some? {
      RowsFail(env, urls.value, productFile.value, false);
      assert RowFails(env, productFile.value, false, urls.value[0]);
    }
  }

  /** With the fetch awaited, a listing whose product URLs all give pages
      that scrape cleanly is written to CSV. */
  lemma ListingAwaitedWrites<E>(env: Env<E>, html: string, listing: Dict<Value>, baseDir: string, productFile: Dict<Value>)
    requires DistinctKeys(productFile)
    requires ListingUrls(env, env.eng.parse(html), listing).Some? && ListingUrls(env, env.eng.parse(html), listing).value != []
    requires forall u :: u in ListingUrls(env, env.eng.parse(html), listing).value ==>
      Fetches(env, u) && RowFor(env, productFile, u).Some?
    ensures ListingScraper(env, html, listing, baseDir, Some(productFile)).Wrote?
  {
    RowsFail(env, ListingUrls(env, env.eng.parse(html), listing).value, productFile, false);
  }

  /** With the fetch awaited, a sitemap whose URLs all give pages that
      scrape cleanly is written to CSV. */
  lemma SitemapAwaitedWrites<E>(env: Env<E>, root: Xml, baseDir: string, productFile: Dict<Value>)
    requires DistinctKeys(productFile) && UrlsetLocs(root) != []
    requires forall u :: u in UrlsetLocs(root) ==> Fetches(env, u) && RowFor(env, productFile, u).Some?
    ensures SitemapScraper(env, root, baseDir, Some(productFile)).Wrote?
  {
    RowsFail(env, UrlsetLocs(root), productFile, true);
  }
}
