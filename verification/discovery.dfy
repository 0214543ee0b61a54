/** Selector discovery (CSV_Main.py): take what the extraction model
    returned for a page, repair it against the field schema, validate it
    against the page, save it, and, for a listing page, bootstrap the
    product selectors from the first product card. */
module Discovery {
  import opened Maybe
  import opened Text
  import opened Json
  import opened Dom
  import opened World
  import opened Storage
  import opened Validator
  import opened Replay

  /** The fields of `product_page`'s `selector_schema`. */
  const ProductSchema: seq<string> :=
    ["name", "price", "description", "category", "brand",
     "availability", "ratings", "reviews", "size", "size_container"]

  /** The fields of `listing_page`'s `selector_schema`. */
  const ListingSchema: seq<string> := ["product_card", "product_link", "pagination"]

  /** What the extraction run hands back: nothing (no result or empty
      `extracted_content`), content `json.loads` rejects, or the decoded value. */
  datatype Reply = NoReply | Unparseable | Parsed(value: Value)

  /** `json.loads` never yields a dict with a repeated key; this is the part
      of that guarantee the discovery code looks at. */
  predicate WellFormedReply(reply: Reply) {
    reply.Parsed? ==>
      && (reply.value.Obj? ==> DistinctKeys(reply.value.fields))
      && (reply.value.Arr? && |reply.value.items| > 0 && reply.value.items[0].Obj? ==>
            DistinctKeys(reply.value.items[0].fields))
  }

  /** The first element of a list reply, the reply itself otherwise;
      `None` for an empty list. */
  function Unwrap(v: Value): (r: Option<Value>)
    ensures r.None? <==> v == Arr([])
    ensures r.Some? && !v.Arr? ==> r.value == v
    ensures v.Arr? && v.items != [] ==> r == Some(v.items[0])
  {
    if v.Arr? then (if v.items == [] then None else Some(v.items[0])) else Some(v)
  }

  // ---------------------------------------------------------------------
  // Schema repair and validation

  /** One round of the repair loop, for the field `k`. */
  function RepairOne(d: Dict<Value>, k: string): (r: Dict<Value>)
    requires DistinctKeys(d)
    ensures DistinctKeys(r) && HasStr(r, k)
    ensures HasStr(d, k) ==> r == d
    ensures !HasStr(d, k) ==> Lookup(r, k) == Some(Str(""))
    ensures forall k' :: k' != k ==> Lookup(r, k') == Lookup(d, k')
    ensures Keys(r) == if k in Keys(d) then Keys(d) else Keys(d) + [k]
  {
    if HasStr(d, k) then d else Put(d, k, Str(""))
  }

  /** `for key in selector_schema: if key not in selectors or not
      isinstance(selectors[key], str): selectors[key] = ""`. */
  function RepairFields(d: Dict<Value>, schema: seq<string>): (r: Dict<Value>)
    requires DistinctKeys(d)
    ensures DistinctKeys(r)
    ensures forall k :: k in schema ==> HasStr(r, k)
    ensures forall k :: k !in schema ==> Lookup(r, k) == Lookup(d, k)
    decreases |schema|
  {
    if schema == [] then d
    else
      var d1 := RepairOne(d, schema[0]);
      var r := RepairFields(d1, schema[1..]);
      assert HasStr(r, schema[0]) by {
        if schema[0] !in schema[1..] {
          assert Lookup(r, schema[0]) == Lookup(d1, schema[0]);
        }
      }
      assert forall k :: k in schema ==> k == schema[0] || k in schema[1..];
      r
  }

  /** A string-valued schema field keeps its string; any other schema field
      ends up as "". */
  lemma {:induction false} RepairFieldsValues(d: Dict<Value>, schema: seq<string>, k: string)
    requires DistinctKeys(d) && k in schema
    ensures HasStr(d, k) ==> Lookup(RepairFields(d, schema), k) == Lookup(d, k)
    ensures !HasStr(d, k) ==> Lookup(RepairFields(d, schema), k) == Some(Str(""))
    decreases |schema|
  {
    var d1 := RepairOne(d, schema[0]);
    if k in schema[1..] {
      RepairFieldsValues(d1, schema[1..], k);
      if k == schema[0] {
        assert Lookup(RepairFields(d, schema), k) == Lookup(d1, k);
      }
    }
  }

  /** Repair keeps the existing keys in place and only appends schema fields. */
  lemma RepairFieldsKeys(d: Dict<Value>, schema: seq<string>)
    requires DistinctKeys(d)
    ensures var r := RepairFields(d, schema);
      |d| <= |r| && Keys(r)[..|d|] == Keys(d) && forall k :: k in Keys(r) ==> k in Keys(d) || k in schema
  {
    RepairFieldsKeySeq(d, schema);
    RepairedKeysGrow(Keys(d), schema);
  }

  /** The keys the repair loop leaves, computed on the key sequence alone. */
  function RepairedKeys(ks: seq<string>, schema: seq<string>): seq<string>
    decreases |schema|
  {
    if schema == [] then ks
    else RepairedKeys(if schema[0] in ks then ks else ks + [schema[0]], schema[1..])
  }

  /** Repair changes the key sequence as `RepairedKeys` says. */
  lemma {:induction false} RepairFieldsKeySeq(d: Dict<Value>, schema: seq<string>)
    requires DistinctKeys(d)
    ensures Keys(RepairFields(d, schema)) == RepairedKeys(Keys(d), schema)
    decreases |schema|
  {
    if schema != [] {
      var d1 := RepairOne(d, schema[0]);
      assert RepairFields(d, schema) == RepairFields(d1, schema[1..]);
      RepairFieldsKeySeq(d1, schema[1..]);
    }
  }

  /** The repaired key sequence extends the original with schema keys only. */
  lemma {:induction false} RepairedKeysGrow(ks: seq<string>, schema: seq<string>)
    ensures var r := RepairedKeys(ks, schema);
      |ks| <= |r| && r[..|ks|] == ks && forall k :: k in r ==> k in ks || k in schema
    decreases |schema|
  {
    if schema != [] {
      var ks1 := if schema[0] in ks then ks else ks + [schema[0]];
      RepairedKeysGrow(ks1, schema[1..]);
      assert ks1[..|ks|] == ks;
      assert schema == [schema[0]] + schema[1..];
      KeysExtendTwice(ks, ks1, RepairedKeys(ks1, schema[1..]), schema[0], schema[1..]);
    }
  }

  /** Two rounds that each keep the earlier keys as a prefix and only add
      keys from a given source keep the first keys as a prefix and only add
      keys from either source. */
  lemma KeysExtendTwice(kd: seq<string>, kd1: seq<string>, kr: seq<string>, k0: string, rest: seq<string>)
    requires |kd| <= |kd1| && kd1[..|kd|] == kd && forall k :: k in kd1 ==> k in kd || k == k0
    requires |kd1| <= |kr| && kr[..|kd1|] == kd1 && forall k :: k in kr ==> k in kd1 || k in rest
    ensures |kd| <= |kr| && kr[..|kd|] == kd && forall k :: k in kr ==> k in kd || k in [k0] + rest
  {
    assert kr[..|kd|] == kr[..|kd1|][..|kd|];
  }

  /** A reply that already holds every schema field as a string comes
      through repair unchanged. */
  lemma {:induction false} RepairKeepsComplete(d: Dict<Value>, schema: seq<string>)
    requires DistinctKeys(d) && forall k :: k in schema ==> HasStr(d, k)
    ensures RepairFields(d, schema) == d
    decreases |schema|
  {
    if schema != [] {
      assert RepairOne(d, schema[0]) == d;
      RepairKeepsComplete(d, schema[1..]);
    }
  }

  /** `for field, selector in selectors.items(): if not selector: continue;
      selectors[field] = validate_selector(soup, selector)`. */
  function ValidationPass<E>(eng: Engine<E>, doc: E, d: Dict<Value>): (r: Dict<Value>)
    ensures Keys(r) == Keys(d)
    ensures forall i :: 0 <= i < |d| && !Truthy(d[i].1) ==> r[i] == d[i]
    ensures forall i :: 0 <= i < |d| && Truthy(d[i].1) && !d[i].1.Str? ==> r[i].1 == Str("")
    ensures forall i :: 0 <= i < |d| && Truthy(d[i].1) && d[i].1.Str? ==>
      r[i].1.Str? && LongestAcceptedCut(eng, doc, Strip(d[i].1.s, IsSpace), r[i].1.s)
  {
    seq(|d|, i requires 0 <= i < |d| =>
      (d[i].0, if Truthy(d[i].1) then Str(Validate(eng, doc, d[i].1)) else d[i].1))
  }

  /** After the pass every non-empty string value is a selector the page accepts. */
  lemma ValidatedAreAccepted<E>(eng: Engine<E>, doc: E, d: Dict<Value>)
    ensures var r := ValidationPass(eng, doc, d);
      forall i :: 0 <= i < |r| && r[i].1.Str? && r[i].1.s != "" ==> Accepts(eng, doc, r[i].1.s)
  {
  }

  /** A selector with no outer whitespace that the page accepts passes
      validation unchanged. */
  lemma ValidateKeepsAccepted<E>(eng: Engine<E>, doc: E, s: string)
    requires s != "" && !IsSpace(s[0]) && !IsSpace(s[|s| - 1]) && Accepts(eng, doc, s)
    ensures Validate(eng, doc, Str(s)) == s
  {
    StripKeepsTight(s, IsSpace);
  }

  /** Repair against `schema`, then validate every truthy value on `doc`. */
  function RepairAndValidate<E>(eng: Engine<E>, doc: E, d: Dict<Value>, schema: seq<string>): (r: Dict<Value>)
    requires DistinctKeys(d)
    ensures DistinctKeys(r)
    ensures forall k :: k in schema ==> HasStr(r, k)
    ensures forall i :: 0 <= i < |r| && r[i].1.Str? && r[i].1.s != "" ==> Accepts(eng, doc, r[i].1.s)
  {
    var repaired := RepairFields(d, schema);
    var checked := ValidationPass(eng, doc, repaired);
    assert DistinctKeys(checked) by {
      assert forall i :: 0 <= i < |checked| ==> checked[i].0 == Keys(repaired)[i];
    }
    forall k | k in schema ensures HasStr(checked, k) {
      ValidationKeepsStr(eng, doc, repaired, k);
    }
    ValidatedAreAccepted(eng, doc, repaired);
    checked
  }

  /** A field holding a string still holds one after validation. */
  lemma ValidationKeepsStr<E>(eng: Engine<E>, doc: E, d: Dict<Value>, k: string)
    requires DistinctKeys(d) && HasStr(d, k)
    ensures HasStr(ValidationPass(eng, doc, d), k)
  {
    var r := ValidationPass(eng, doc, d);
    var i := IndexOf(d, k);
    LookupAt(d, i);
    assert DistinctKeys(r) by {
      assert forall j :: 0 <= j < |r| ==> r[j].0 == Keys(d)[j];
    }
    LookupAt(r, i);
  }

  // ---------------------------------------------------------------------
  // product_page

  /** How a discovery run ends: an early `return`, an exception, or a saved
      selector file. */
  datatype Abort = NoHtml | NoExtraction | BadJson | EmptyList
  datatype Discovery = Aborted(why: Abort) | Crashed | Saved(path: seq<string>, selectors: Dict<Value>)

  /** `{base_dir}/selectors/{domain}/{file}`. */
  function SelectorPath(baseDir: string, domain: string, file: string): seq<string> {
    [baseDir, "selectors", domain, file]
  }

  /** `product_page(llm_cfg, html_content, url, base_dir)`, with the
      extraction run's answer as `reply`, `urlparse(url).hostname` as `host`
      and the function's `selector_schema` as `schema` (every caller passes
      `ProductSchema`). */
  function ProductPage<E>(eng: Engine<E>, html: string, reply: Reply, host: Option<string>, baseDir: string,
                          schema: seq<string>): (r: Discovery)
    requires WellFormedReply(reply)
    ensures html == "" ==> r == Aborted(NoHtml)
    ensures html != "" && reply.NoReply? ==> r == Aborted(NoExtraction)
    ensures html != "" && reply.Unparseable? ==> r == Aborted(BadJson)
    ensures html != "" && reply == Parsed(Arr([])) ==> r == Aborted(EmptyList)
    ensures r.Crashed? <==> html != "" && reply.Parsed? && Unwrap(reply.value).Some? && !Unwrap(reply.value).value.Obj?
    ensures r.Saved? <==> html != "" && reply.Parsed? && Unwrap(reply.value).Some? && Unwrap(reply.value).value.Obj?
    ensures r.Saved? ==>
      && r.path == SelectorPath(baseDir, DomainOf(host), "product_selector.json")
      && DistinctKeys(r.selectors)
      && (forall k :: k in schema ==> HasStr(r.selectors, k))
      && (forall i :: 0 <= i < |r.selectors| && r.selectors[i].1.Str? && r.selectors[i].1.s != "" ==>
            Accepts(eng, eng.parse(html), r.selectors[i].1.s))
  {
    if html == "" then Aborted(NoHtml)
    else match reply
      case NoReply => Aborted(NoExtraction)
      case Unparseable => Aborted(BadJson)
      case Parsed(v) =>
        match Unwrap(v)
        case None => Aborted(EmptyList)
        case Some(obj) =>
          if !obj.Obj? then Crashed
          else
            Saved(SelectorPath(baseDir, DomainOf(host), "product_selector.json"),
                  RepairAndValidate(eng, eng.parse(html), obj.fields, schema))
  }

  /** Validation leaves a dict of empty or accepted, outer-whitespace-free
      selectors unchanged. */
  lemma ValidationKeepsGood<E>(eng: Engine<E>, doc: E, d: Dict<Value>)
    requires forall i :: 0 <= i < |d| ==> d[i].1.Str? && Good(eng, doc, d[i].1.s)
    ensures ValidationPass(eng, doc, d) == d
  {
    var r := ValidationPass(eng, doc, d);
    forall i | 0 <= i < |d| ensures r[i] == d[i] {
      if d[i].1.s != "" {
        ValidateKeepsAccepted(eng, doc, d[i].1.s);
      }
    }
  }

  /** Empty, or a selector the page accepts with no outer whitespace. */
  ghost predicate Good<E>(eng: Engine<E>, doc: E, s: string) {
    s == "" || (!IsSpace(s[0]) && !IsSpace(s[|s| - 1]) && Accepts(eng, doc, s))
  }

  /** A reply holding exactly the schema, every value either empty or an
      accepted selector without outer whitespace, is saved as it came. */
  lemma ProductPageKeepsGoodReply<E>(eng: Engine<E>, html: string, d: Dict<Value>, host: Option<string>, baseDir: string,
                                     schema: seq<string>)
    requires html != "" && DistinctKeys(d) && forall k :: k in schema ==> k in Keys(d)
    requires forall i :: 0 <= i < |d| ==> d[i].1.Str? && Good(eng, eng.parse(html), d[i].1.s)
    ensures ProductPage(eng, html, Parsed(Obj(d)), host, baseDir, schema) == Saved(SelectorPath(baseDir, DomainOf(host), "product_selector.json"), d)
  {
    assert Unwrap(Obj(d)) == Some(Obj(d));
    ProductPageSavesObject(eng, html, Parsed(Obj(d)), host, baseDir, schema);
    GoodSelectorsKept(eng, eng.parse(html), d, schema);
  }

  /** An object reply, bare or first in a list, on a page with HTML is
      repaired, validated and saved. */
  lemma ProductPageSavesObject<E>(eng: Engine<E>, html: string, reply: Reply, host: Option<string>, baseDir: string,
                                  schema: seq<string>)
    requires html != "" && WellFormedReply(reply)
    requires reply.Parsed? && Unwrap(reply.value).Some? && Unwrap(reply.value).value.Obj?
    ensures var d := Unwrap(reply.value).value.fields;
      && DistinctKeys(d)
      && ProductPage(eng, html, reply, host, baseDir, schema)
         == Saved(SelectorPath(baseDir, DomainOf(host), "product_selector.json"),
                  RepairAndValidate(eng, eng.parse(html), d, schema))
  {
  }

  /** What a saved product file holds under a schema field, in terms of the
      reply: a non-empty string comes back as the longest suffix of its
      stripped text the page accepts (cut at spaces), anything else as "". */
  lemma ProductPageSavedField<E>(eng: Engine<E>, html: string, reply: Reply, host: Option<string>, baseDir: string,
                                 schema: seq<string>, k: string)
    requires WellFormedReply(reply) && k in schema
    requires ProductPage(eng, html, reply, host, baseDir, schema).Saved?
    ensures var d := Unwrap(reply.value).value.fields;
      var v := Lookup(ProductPage(eng, html, reply, host, baseDir, schema).selectors, k);
      && (HasStr(d, k) && Field(d, k) != "" ==>
            v.Some? && v.value.Str? && LongestAcceptedCut(eng, eng.parse(html), Strip(Field(d, k), IsSpace), v.value.s))
      && (!HasStr(d, k) || Field(d, k) == "" ==> v == Some(Str("")))
  {
    ProductPageSavesObject(eng, html, reply, host, baseDir, schema);
    RepairAndValidateField(eng, eng.parse(html), Unwrap(reply.value).value.fields, schema, k);
  }

  /** `RepairAndValidate` field by field: a non-empty string is cut to the
      longest accepted cut of its stripped text, anything else becomes "". */
  lemma RepairAndValidateField<E>(eng: Engine<E>, doc: E, d: Dict<Value>, schema: seq<string>, k: string)
    requires DistinctKeys(d) && k in schema
    ensures var v := Lookup(RepairAndValidate(eng, doc, d, schema), k);
      && (HasStr(d, k) && Field(d, k) != "" ==>
            v.Some? && v.value.Str? && LongestAcceptedCut(eng, doc, Strip(Field(d, k), IsSpace), v.value.s))
      && (!HasStr(d, k) || Field(d, k) == "" ==> v == Some(Str("")))
  {
    var repaired := RepairFields(d, schema);
    RepairThenValidate(eng, doc, d, schema);
    RepairFieldsValues(d, schema, k);
    ValidationPassAt(eng, doc, repaired, k);
    var v := Lookup(repaired, k).value;
    if HasStr(d, k) && Field(d, k) != "" {
      assert v == Str(Field(d, k));
    } else {
      assert v == Str("");
    }
  }

  lemma RepairThenValidate<E>(eng: Engine<E>, doc: E, d: Dict<Value>, schema: seq<string>)
    requires DistinctKeys(d)
    ensures RepairAndValidate(eng, doc, d, schema) == ValidationPass(eng, doc, RepairFields(d, schema))
  {
  }

  /** The validation pass at one key of a dict: a falsy value is kept, a
      non-empty string becomes its longest accepted cut. */
  lemma ValidationPassAt<E>(eng: Engine<E>, doc: E, d: Dict<Value>, k: string)
    requires DistinctKeys(d) && Lookup(d, k).Some?
    ensures var v, w := Lookup(d, k).value, Lookup(ValidationPass(eng, doc, d), k);
      && (!Truthy(v) ==> w == Some(v))
      && (v.Str? && v.s != "" ==> w.Some? && w.value.Str? && LongestAcceptedCut(eng, doc, Strip(v.s, IsSpace), w.value.s))
  {
    var r := ValidationPass(eng, doc, d);
    var i := IndexOf(d, k);
    LookupAt(d, i);
    assert DistinctKeys(r) by {
      assert forall j :: 0 <= j < |r| ==> r[j].0 == Keys(d)[j];
    }
    assert r[i].0 == k by {
      assert Keys(r)[i] == Keys(d)[i];
    }
    LookupAt(r, i);
  }

  /** Repair and validation leave a complete dict of good selectors alone. */
  lemma GoodSelectorsKept<E>(eng: Engine<E>, doc: E, d: Dict<Value>, schema: seq<string>)
    requires DistinctKeys(d) && forall k :: k in schema ==> k in Keys(d)
    requires forall i :: 0 <= i < |d| ==> d[i].1.Str? && Good(eng, doc, d[i].1.s)
    ensures RepairAndValidate(eng, doc, d, schema) == d
  {
    StringFieldsHaveStr(d);
    RepairKeepsComplete(d, schema);
    ValidationKeepsGood(eng, doc, d);
  }

  /** In a dict of strings, every key holds a string. */
  lemma StringFieldsHaveStr(d: Dict<Value>)
    requires DistinctKeys(d) && forall i :: 0 <= i < |d| ==> d[i].1.Str?
    ensures forall k :: k in Keys(d) ==> HasStr(d, k)
  {
    forall k | k in Keys(d) ensures HasStr(d, k) {
      var i :| 0 <= i < |d| && Keys(d)[i] == k;
      LookupAt(d, i);
    }
  }

  // ---------------------------------------------------------------------
  // listing_page and its bootstrap

  /** `if product_url.startswith("/"): product_url = f"https://{domain}{product_url}"`. */
  function ResolveHref(domain: string, href: string): (r: string)
    ensures EndsWith(r, href)
    ensures r == href <==> !StartsWith(href, "/")
    ensures StartsWith(href, "/") ==> StartsWith(r, "https://") && |r| == 8 + |domain| + |href|
    ensures StartsWith(href, "/") ==> r[8..8 + |domain|] == domain && r[8 + |domain|..] == href
  {
    if StartsWith(href, "/") then "https://" + domain + href else href
  }

  /** Where the bootstrap after the listing file is saved stops. `BootCrashed`
      is an exception after the save: a selector the engine rejects, a crash
      in `product_page`, or in the chained `listing_scraper`. */
  datatype Bootstrap =
    | ProductFileExists
    | MissingSelectors
    | NoCard
    | NoHref
    | NoProductHtml(url: string)
    | BootCrashed
    | Chained(url: string, product: Discovery, replay: Outcome)

  datatype ListingResult =
    | ListingAborted(why: Abort)
    | ListingCrashed
    | ListingSaved(path: seq<string>, selectors: Dict<Value>, boot: Bootstrap)

  /** The product file `listing_scraper` finds at the listing domain's path
      after `product_page` ran on `url`: only one `product_page` saved at
      exactly that path. */
  function ProductFileAfter(product: Discovery, expected: seq<string>): Option<Dict<Value>>
  {
    if product.Saved? && product.path == expected then Some(product.selectors) else None
  }

  /** Where the walk from the listing page to its first product page ends. */
  datatype CardWalk = WalkCrashed | WalkNoCard | WalkNoHref | WalkUrl(url: string)

  /** `soup.select_one(card)`, then `select_one(link)` inside that card, then
      the link's `href`, made absolute for the listing's domain. */
  function FirstCardUrl<E>(eng: Engine<E>, soup: E, card: string, link: string, domain: string): (w: CardWalk)
    ensures w.WalkUrl? ==> (
      && SelectOne(eng, soup, card).Match?
      && SelectOne(eng, SelectOne(eng, soup, card).element, link).Match?
      && HasHref(eng, SelectOne(eng, SelectOne(eng, soup, card).element, link).element))
    ensures w.WalkCrashed? <==>
      SelectOne(eng, soup, card).Threw?
      || (SelectOne(eng, soup, card).Match? && SelectOne(eng, SelectOne(eng, soup, card).element, link).Threw?)
    ensures w.WalkNoCard? <==> SelectOne(eng, soup, card).NoMatch?
    ensures w.WalkNoHref? <==>
      SelectOne(eng, soup, card).Match?
      && (SelectOne(eng, SelectOne(eng, soup, card).element, link).NoMatch?
          || (SelectOne(eng, SelectOne(eng, soup, card).element, link).Match?
              && !HasHref(eng, SelectOne(eng, SelectOne(eng, soup, card).element, link).element)))
  {
    match SelectOne(eng, soup, card)
    case Threw => WalkCrashed
    case NoMatch => WalkNoCard
    case Match(c) =>
      match SelectOne(eng, c, link)
      case Threw => WalkCrashed
      case NoMatch => WalkNoHref
      case Match(a) =>
        if !HasHref(eng, a) then WalkNoHref
        else WalkUrl(ResolveHref(domain, eng.href(a).value))
  }

  /** The converse of `FirstCardUrl`'s contract: a matching card whose
      matching link has an href always yields that href, resolved. */
  lemma FirstCardUrlFound<E>(eng: Engine<E>, soup: E, card: string, link: string, domain: string, c: E, a: E)
    requires SelectOne(eng, soup, card) == Match(c) && SelectOne(eng, c, link) == Match(a)
    requires HasHref(eng, a)
    ensures FirstCardUrl(eng, soup, card, link, domain) == WalkUrl(ResolveHref(domain, eng.href(a).value))
  {
  }

  /** Lines 478-493 from the product URL on: collect its HTML, run
      `product_page` on it, then replay the listing with the product file
      that run saved. */
  function ChainFrom<E>(env: Env<E>, html: string, sel: Dict<Value>, domain: string, baseDir: string,
                        url: string, productReply: Reply, productSchema: seq<string>): (b: Bootstrap)
    requires WellFormedReply(productReply)
    ensures b.NoProductHtml? || b.BootCrashed? || b.Chained?
    ensures b.NoProductHtml? <==> env.collect(url).None? || env.collect(url) == Some("")
    ensures b.NoProductHtml? ==> b.url == url
    ensures b.BootCrashed? <==>
      env.collect(url).Some? && env.collect(url).value != "" &&
      var product := ProductPage(env.eng, env.collect(url).value, productReply, env.host(url), baseDir, productSchema);
      (product.Crashed? ||
       ListingScraper(env, html, sel, baseDir,
                      ProductFileAfter(product, SelectorPath(baseDir, domain, "product_selector.json"))).ReplayCrashed?)
    ensures b.Chained? ==>
      && b.url == url && env.collect(url).Some? && env.collect(url).value != ""
      && b.product == ProductPage(env.eng, env.collect(url).value, productReply, env.host(url), baseDir, productSchema)
      && !b.product.Crashed?
      && b.replay != ReplayCrashed
      && b.product.Saved? && b.product.path == SelectorPath(baseDir, domain, "product_selector.json")
      && b.replay == ListingScraper(env, html, sel, baseDir, Some(b.product.selectors))
  {
    match env.collect(url)
    case None => NoProductHtml(url)
    case Some(ph) =>
      if ph == "" then NoProductHtml(url)
      else
        var product := ProductPage(env.eng, ph, productReply, env.host(url), baseDir, productSchema);
        if product.Crashed? then BootCrashed
        else
          var file := ProductFileAfter(product, SelectorPath(baseDir, domain, "product_selector.json"));
          var replay := ListingScraper(env, html, sel, baseDir, file);
          if replay.ReplayCrashed? then BootCrashed else Chained(url, product, replay)
  }

  /** `product_page` saves under the product URL's own host, while
      `listing_scraper` looks under the listing's: when the two hosts differ,
      the replay finds no product file and the bootstrap ends in a crash. */
  lemma ForeignHostBreaksChain<E>(env: Env<E>, html: string, sel: Dict<Value>, domain: string, baseDir: string,
                                  url: string, productReply: Reply, productSchema: seq<string>)
    requires WellFormedReply(productReply)
    requires env.collect(url).Some? && env.collect(url).value != ""
    requires ProductPage(env.eng, env.collect(url).value, productReply, env.host(url), baseDir, productSchema).Saved?
    requires DomainOf(env.host(url)) != domain
    ensures ChainFrom(env, html, sel, domain, baseDir, url, productReply, productSchema) == BootCrashed
  {
    var product := ProductPage(env.eng, env.collect(url).value, productReply, env.host(url), baseDir, productSchema);
    assert product.path[2] != SelectorPath(baseDir, domain, "product_selector.json")[2];
  }

  /** Lines 466-493: bootstrap a product selector from the first card of the
      listing page, then replay the listing. `productSchema` is what
      `product_page` repairs against (`ProductSchema`). */
  function Bootstrapping<E>(env: Env<E>, html: string, sel: Dict<Value>, domain: string, baseDir: string,
                            productFileExists: bool, productReply: Reply, productSchema: seq<string>): (b: Bootstrap)
    requires DistinctKeys(sel) && HasStr(sel, "product_card") && HasStr(sel, "product_link")
    requires WellFormedReply(productReply)
    ensures productFileExists ==> b == ProductFileExists
    ensures !productFileExists && (Field(sel, "product_card") == "" || Field(sel, "product_link") == "") ==> b == MissingSelectors
    ensures b.NoProductHtml? ==> env.collect(b.url).None? || env.collect(b.url) == Some("")
    ensures b.Chained? ==>
      && env.collect(b.url).Some? && env.collect(b.url).value != ""
      && b.product == ProductPage(env.eng, env.collect(b.url).value, productReply, env.host(b.url), baseDir, productSchema)
      && !b.product.Crashed?
      && b.replay != ReplayCrashed
      && b.product.Saved? && b.product.path == SelectorPath(baseDir, domain, "product_selector.json")
      && b.replay == ListingScraper(env, html, sel, baseDir, Some(b.product.selectors))
    ensures !productFileExists && Field(sel, "product_card") != "" && Field(sel, "product_link") != "" ==>
      var w := FirstCardUrl(env.eng, env.eng.parse(html), Field(sel, "product_card"), Field(sel, "product_link"), domain);
      && (w.WalkCrashed? ==> b == BootCrashed)
      && (w.WalkNoCard? ==> b == NoCard)
      && (w.WalkNoHref? ==> b == NoHref)
      && (w.WalkUrl? ==> b == ChainFrom(env, html, sel, domain, baseDir, w.url, productReply, productSchema))
  {
    if productFileExists then ProductFileExists
    else
      var card := Field(sel, "product_card");
      var link := Field(sel, "product_link");
      if card == "" || link == "" then MissingSelectors
      else
        match FirstCardUrl(env.eng, env.eng.parse(html), card, link, domain)
        case WalkCrashed => BootCrashed
        case WalkNoCard => NoCard
        case WalkNoHref => NoHref
        case WalkUrl(url) => ChainFrom(env, html, sel, domain, baseDir, url, productReply, productSchema)
  }

  /** `listing_page(llm_cfg, html_content, url, base_dir)`, with the listing
      extraction's answer as `reply`, whether the product selector file
      already exists, and the product extraction's answer as `productReply`. */
  function ListingPage<E>(env: Env<E>, html: string, reply: Reply, url: string, baseDir: string,
                          productFileExists: bool, productReply: Reply): (r: ListingResult)
    requires WellFormedReply(reply) && WellFormedReply(productReply)
    ensures html == "" ==> r == ListingAborted(NoHtml)
    ensures html != "" && reply.NoReply? ==> r == ListingAborted(NoExtraction)
    ensures html != "" && reply.Unparseable? ==> r == ListingCrashed
    ensures html != "" && reply == Parsed(Arr([])) ==> r == ListingCrashed
    ensures r.ListingSaved? ==>
      && r.path == SelectorPath(baseDir, DomainOf(env.host(url)), "listing_selector.json")
      && DistinctKeys(r.selectors)
      && (forall k :: k in ListingSchema ==> HasStr(r.selectors, k))
    ensures r.ListingAborted? <==> html == "" || reply.NoReply?
    ensures r.ListingSaved? <==>
      html != "" && reply.Parsed? && Unwrap(reply.value).Some? && Unwrap(reply.value).value.Obj?
    ensures r.ListingCrashed? <==>
      html != "" && (reply.Unparseable? || (reply.Parsed? && (Unwrap(reply.value).None? || !Unwrap(reply.value).value.Obj?)))
    ensures r.ListingSaved? ==>
      && reply.Parsed? && Unwrap(reply.value).Some? && Unwrap(reply.value).value.Obj?
      && r.selectors == RepairFields(Unwrap(reply.value).value.fields, ListingSchema)
    ensures r.ListingSaved? && productFileExists ==> r.boot == ProductFileExists
    ensures r.ListingSaved? && !productFileExists ==>
      r.boot == Bootstrapping(env, html, r.selectors, DomainOf(env.host(url)), baseDir, false, productReply, ProductSchema)
  {
    if html == "" then ListingAborted(NoHtml)
    else match reply
      case NoReply => ListingAborted(NoExtraction)
      case Unparseable => ListingCrashed
      case Parsed(v) =>
        match Unwrap(v)
        case None => ListingCrashed
        case Some(obj) =>
          if !obj.Obj? then ListingCrashed
          else
            var domain := DomainOf(env.host(url));
            var sel := RepairFields(obj.fields, ListingSchema);
            var boot := Bootstrapping(env, html, sel, domain, baseDir, productFileExists, productReply, ProductSchema);
            ListingSaved(SelectorPath(baseDir, domain, "listing_selector.json"), sel, boot)
  }

  /** With save_data's `html_collection` as written (it always answers
      `None`), the bootstrap never reaches `product_page`, so a listing run
      without an existing product file never produces one. */
  lemma AsWrittenNeverChains<E>(env: Env<E>, html: string, reply: Reply, url: string, baseDir: string,
                                productReply: Reply, raw: string -> Option<string>, clean: string -> Option<string>)
    requires WellFormedReply(reply) && WellFormedReply(productReply)
    requires forall u :: env.collect(u) == CollectHtmlAsWritten(raw(u), clean(u))
    ensures var r := ListingPage(env, html, reply, url, baseDir, false, productReply);
      r.ListingSaved? ==> !r.boot.Chained?
  {
  }

  /** A listing whose first card yields a URL goes on to that URL's product page. */
  lemma BootstrapChains<E>(env: Env<E>, html: string, sel: Dict<Value>, domain: string, baseDir: string,
                           productReply: Reply, productSchema: seq<string>, u: string)
    requires DistinctKeys(sel) && HasStr(sel, "product_card") && HasStr(sel, "product_link")
    requires Field(sel, "product_card") != "" && Field(sel, "product_link") != ""
    requires WellFormedReply(productReply)
    requires FirstCardUrl(env.eng, env.eng.parse(html), Field(sel, "product_card"), Field(sel, "product_link"), domain) == WalkUrl(u)
    ensures Bootstrapping(env, html, sel, domain, baseDir, false, productReply, productSchema)
      == ChainFrom(env, html, sel, domain, baseDir, u, productReply, productSchema)
  {
  }

  /** With the intended `html_collection`, a listing whose first card links
      (by a site-relative href) to a page the collector returns does reach
      `product_page` for that page, at the listing's own domain. */
  lemma IntendedReachesProductPage<E>(env: Env<E>, html: string, sel: Dict<Value>, domain: string, baseDir: string,
                                      productReply: Reply, raw: string -> Option<string>, clean: string -> Option<string>,
                                      c: E, a: E, productSchema: seq<string>)
    requires DistinctKeys(sel) && HasStr(sel, "product_card") && HasStr(sel, "product_link")
    requires Field(sel, "product_card") != "" && Field(sel, "product_link") != ""
    requires WellFormedReply(productReply)
    requires forall u :: env.collect(u) == CollectHtmlIntended(raw(u), clean(u))
    requires SelectOne(env.eng, env.eng.parse(html), Field(sel, "product_card")) == Match(c)
    requires SelectOne(env.eng, c, Field(sel, "product_link")) == Match(a)
    requires HasHref(env.eng, a)
    requires var u := ResolveHref(domain, env.eng.href(a).value); clean(u).Some? && clean(u).value != ""
    ensures var u := ResolveHref(domain, env.eng.href(a).value);
      var b := Bootstrapping(env, html, sel, domain, baseDir, false, productReply, productSchema);
      b.BootCrashed? || b.Chained?
  {
    var u := ResolveHref(domain, env.eng.href(a).value);
    FirstCardUrlFound(env.eng, env.eng.parse(html), Field(sel, "product_card"), Field(sel, "product_link"), domain, c, a);
    assert env.collect(u) == clean(u);
    BootstrapChains(env, html, sel, domain, baseDir, productReply, productSchema, u);
  }
}
