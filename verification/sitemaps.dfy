/** Sitemap reading (Sitemaps XML protocol 0.9, sitemaps.org): the `<loc>`
    texts of a `urlset`, one level of `sitemapindex` indirection, and the
    loop in CSV_Main's `sitemap` that picks a not-yet-tried sample URL. */
module Sitemaps {
  import opened Maybe
  import opened Text

  const Namespace: string := "http://www.sitemaps.org/schemas/sitemap/0.9"

  /** ElementTree's spelling of `ns:local`. */
  function Qualified(local: string): string {
    "{" + Namespace + "}" + local
  }

  /** A parsed XML element: its tag, its `.text`, its children. */
  datatype Xml = Xml(tag: string, text: Option<string>, children: seq<Xml>)

  /** `node.findall(tag)`: the direct children with that tag, in document order. */
  function FindAll(children: seq<Xml>, tag: string): (r: seq<Xml>)
    ensures |r| <= |children|
    ensures forall x :: x in r <==> x in children && x.tag == tag
  {
    assert forall x :: x in children ==> x == children[0] || x in children[1..];
    if children == [] then []
    else if children[0].tag == tag then [children[0]] + FindAll(children[1..], tag)
    else FindAll(children[1..], tag)
  }

  /** `findall` keeps document order: the matches among two runs of
      children are those of the first run, then those of the second. */
  lemma {:induction false} FindAllAppend(a: seq<Xml>, b: seq<Xml>, tag: string)
    ensures FindAll(a + b, tag) == FindAll(a, tag) + FindAll(b, tag)
  {
    if a == [] {
      assert a + b == b;
    } else {
      assert (a + b)[0] == a[0] && (a + b)[1..] == a[1..] + b;
      FindAllAppend(a[1..], b, tag);
      if a[0].tag == tag {
        assert [a[0]] + (FindAll(a[1..], tag) + FindAll(b, tag)) == ([a[0]] + FindAll(a[1..], tag)) + FindAll(b, tag);
      }
    }
  }

  /** One child is a match, kept once, exactly when it has the tag. With
      `FindAllAppend` this fixes `findall` on every run of children. */
  lemma FindAllOne(x: Xml, tag: string)
    ensures FindAll([x], tag) == if x.tag == tag then [x] else []
  {
    assert [x][1..] == [];
  }

  /** `node.find(tag)`: the first direct child with that tag. */
  function Find(node: Xml, tag: string): (r: Option<Xml>)
    ensures r.Some? <==> |FindAll(node.children, tag)| > 0
    ensures r.Some? ==> r.value == FindAll(node.children, tag)[0]
  {
    var all := FindAll(node.children, tag);
    if |all| == 0 then None else Some(all[0])
  }

  /** The stripped `<loc>` text of an entry, when `loc is not None and loc.text`. */
  function LocOf(entry: Xml): (r: Option<string>)
    ensures r.Some? <==>
      Find(entry, Qualified("loc")).Some? && Find(entry, Qualified("loc")).value.text.Some?
      && Find(entry, Qualified("loc")).value.text.value != ""
    ensures r.Some? ==> r.value == Strip(Find(entry, Qualified("loc")).value.text.value, IsSpace)
  {
    match Find(entry, Qualified("loc"))
    case None => None
    case Some(loc) =>
      if loc.text.Some? && loc.text.value != "" then Some(Strip(loc.text.value, IsSpace)) else None
  }

  /** The values of the present options, in order. */
  function Present<T(!new)>(xs: seq<Option<T>>): (r: seq<T>)
    ensures |r| <= |xs|
    ensures forall u :: u in r <==> Some(u) in xs
  {
    if xs == [] then []
    else
      var rest := Present(xs[1..]);
      assert forall o :: o in xs <==> o == xs[0] || o in xs[1..];
      if xs[0].Some? then [xs[0].value] + rest else rest
  }

  /** Dropping the absent options keeps order across a concatenation. */
  lemma {:induction false} PresentAppend<T(!new)>(a: seq<Option<T>>, b: seq<Option<T>>)
    ensures Present(a + b) == Present(a) + Present(b)
  {
    if a == [] {
      assert a + b == b;
    } else {
      assert (a + b)[1..] == a[1..] + b;
      PresentAppend(a[1..], b);
    }
  }

  /** The loop `for e in entries: loc = e.find("ns:loc"); if ...: urls.append(loc.text.strip())`. */
  function Locs(entries: seq<Xml>): (r: seq<string>)
    ensures |r| <= |entries|
    ensures forall u :: u in r <==> exists e :: e in entries && LocOf(e) == Some(u)
  {
    var opts := seq(|entries|, i requires 0 <= i < |entries| => LocOf(entries[i]));
    var r := Present(opts);
    forall u ensures u in r <==> exists e :: e in entries && LocOf(e) == Some(u) {
      if u in r {
        var i :| 0 <= i < |opts| && opts[i] == Some(u);
        assert entries[i] in entries;
      }
      if e :| e in entries && LocOf(e) == Some(u) {
        var i :| 0 <= i < |entries| && entries[i] == e;
        assert opts[i] == Some(u);
      }
    }
    r
  }

  /** One entry gives its loc, or nothing. With `LocsAppend` this pins down
      `Locs` on every run of entries. */
  lemma LocsOne(e: Xml)
    ensures Locs([e]) == if LocOf(e).Some? then [LocOf(e).value] else []
  {
    var opts := seq(1, i requires 0 <= i < 1 => LocOf([e][i]));
    assert opts == [LocOf(e)];
    assert opts[1..] == [];
  }

  /** Reading entries keeps document order: the locs of two runs of entries
      are the locs of the first followed by those of the second. */
  lemma LocsAppend(a: seq<Xml>, b: seq<Xml>)
    ensures Locs(a + b) == Locs(a) + Locs(b)
  {
    var oa := seq(|a|, i requires 0 <= i < |a| => LocOf(a[i]));
    var ob := seq(|b|, i requires 0 <= i < |b| => LocOf(b[i]));
    var ab := a + b;
    var oab := seq(|ab|, i requires 0 <= i < |ab| => LocOf(ab[i]));
    assert oab == oa + ob;
    PresentAppend(oa, ob);
  }

  /** `root.findall("ns:url")` followed by the loc loop: the URLs a `urlset` lists. */
  function UrlsetLocs(root: Xml): (r: seq<string>)
    ensures |r| <= |root.children|
    ensures forall u :: u in r <==> exists e :: e in root.children && e.tag == Qualified("url") && LocOf(e) == Some(u)
  {
    Locs(FindAll(root.children, Qualified("url")))
  }

  /** A `urlset` is read in document order: with its children split into two
      runs, the URLs are those of the first run's `<url>` entries, then the
      second's. */
  lemma UrlsetLocsAppend(tag: string, text: Option<string>, a: seq<Xml>, b: seq<Xml>)
    ensures UrlsetLocs(Xml(tag, text, a + b)) == UrlsetLocs(Xml(tag, text, a)) + UrlsetLocs(Xml(tag, text, b))
  {
    FindAllAppend(a, b, Qualified("url"));
    LocsAppend(FindAll(a, Qualified("url")), FindAll(b, Qualified("url")));
  }

  /** One child of a `urlset` gives its loc when it is a `<url>` entry with
      one, and nothing otherwise. */
  lemma UrlsetLocsOne(tag: string, text: Option<string>, x: Xml)
    ensures UrlsetLocs(Xml(tag, text, [x])) ==
      if x.tag == Qualified("url") && LocOf(x).Some? then [LocOf(x).value] else []
  {
    FindAllOne(x, Qualified("url"));
    LocsOne(x);
    assert Locs([]) == [];
  }

  /** Some `<sitemap>` entry names a child that cannot be fetched and parsed. */
  predicate SomeChildFails(sitemaps: seq<Xml>, fetchChild: string -> Option<Xml>) {
    exists s :: s in sitemaps && LocOf(s).Some? && fetchChild(LocOf(s).value).None?
  }

  /** Some `<sitemap>` entry names a child whose urlset lists `u`. */
  predicate ListedByChild(sitemaps: seq<Xml>, fetchChild: string -> Option<Xml>, u: string) {
    exists s :: s in sitemaps && LocOf(s).Some? && fetchChild(LocOf(s).value).Some?
             && u in UrlsetLocs(fetchChild(LocOf(s).value).value)
  }

  /** The first `<sitemap>` entry, then the rest: how the two predicates
      split over a non-empty run of entries. */
  lemma ChildrenCons(sitemaps: seq<Xml>, fetchChild: string -> Option<Xml>)
    requires sitemaps != []
    ensures var s0 := sitemaps[0];
      SomeChildFails(sitemaps, fetchChild) <==>
        (LocOf(s0).Some? && fetchChild(LocOf(s0).value).None?) || SomeChildFails(sitemaps[1..], fetchChild)
    ensures var s0 := sitemaps[0];
      forall u :: ListedByChild(sitemaps, fetchChild, u) <==>
        (LocOf(s0).Some? && fetchChild(LocOf(s0).value).Some? && u in UrlsetLocs(fetchChild(LocOf(s0).value).value))
        || ListedByChild(sitemaps[1..], fetchChild, u)
  {
    assert forall s :: s in sitemaps <==> s == sitemaps[0] || s in sitemaps[1..];
  }

  /** One `<sitemap>` entry of an index: nothing without a loc, `None` when
      its child cannot be fetched or parsed (which aborts the whole call),
      the child's `urlset` locs otherwise. */
  function EntryLocs(s: Xml, fetchChild: string -> Option<Xml>): Option<seq<string>> {
    match LocOf(s)
    case None => Some([])
    case Some(u) =>
      match fetchChild(u)
      case None => None
      case Some(child) => Some(UrlsetLocs(child))
  }

  /** Two reads in order: both URL lists, or a failure when either failed. */
  function Join(x: Option<seq<string>>, y: Option<seq<string>>): Option<seq<string>> {
    if x.Some? && y.Some? then Some(x.value + y.value) else None
  }

  /** The children of a `sitemapindex`, each fetched and read as a `urlset`,
      concatenated in document order. */
  function IndexLocs(sitemaps: seq<Xml>, fetchChild: string -> Option<Xml>): Option<seq<string>>
  {
    if sitemaps == [] then Some([])
    else Join(EntryLocs(sitemaps[0], fetchChild), IndexLocs(sitemaps[1..], fetchChild))
  }

  /** The read of an index fails exactly when some `<sitemap>` entry names a
      child sitemap that cannot be fetched or parsed. */
  lemma {:induction false} IndexLocsFails(sitemaps: seq<Xml>, fetchChild: string -> Option<Xml>)
    ensures IndexLocs(sitemaps, fetchChild).None? <==> SomeChildFails(sitemaps, fetchChild)
  {
    if sitemaps != [] {
      var s0, e := sitemaps[0], EntryLocs(sitemaps[0], fetchChild);
      assert e.None? <==> LocOf(s0).Some? && fetchChild(LocOf(s0).value).None?;
      assert IndexLocs(sitemaps, fetchChild) == Join(e, IndexLocs(sitemaps[1..], fetchChild));
      ChildrenCons(sitemaps, fetchChild);
      IndexLocsFails(sitemaps[1..], fetchChild);
    }
  }

  /** Once every child sitemap has been fetched, a URL is in the result
      exactly when some `<sitemap>` entry names a child whose urlset lists it. */
  lemma {:induction false} IndexLocsListed(sitemaps: seq<Xml>, fetchChild: string -> Option<Xml>, u: string)
    requires IndexLocs(sitemaps, fetchChild).Some?
    ensures u in IndexLocs(sitemaps, fetchChild).value <==> ListedByChild(sitemaps, fetchChild, u)
  {
    if sitemaps != [] {
      ChildrenCons(sitemaps, fetchChild);
      IndexLocsListed(sitemaps[1..], fetchChild, u);
    }
  }

  /** The index is read in document order: the URLs of two runs of
      `<sitemap>` entries are those of the first run, then those of the
      second, and the whole read fails when either run fails. */
  lemma {:induction false} IndexLocsAppend(a: seq<Xml>, b: seq<Xml>, fetchChild: string -> Option<Xml>)
    ensures IndexLocs(a + b, fetchChild) == Join(IndexLocs(a, fetchChild), IndexLocs(b, fetchChild))
  {
    var ab := a + b;
    if a == [] {
      assert ab == b;
      JoinEmpty(IndexLocs(b, fetchChild));
    } else {
      assert ab[1..] == a[1..] + b && ab[0] == a[0];
      IndexLocsAppend(a[1..], b, fetchChild);
      var e := EntryLocs(a[0], fetchChild);
      assert IndexLocs(ab, fetchChild) == Join(e, IndexLocs(a[1..] + b, fetchChild));
      assert IndexLocs(a, fetchChild) == Join(e, IndexLocs(a[1..], fetchChild));
      JoinAssoc(e, IndexLocs(a[1..], fetchChild), IndexLocs(b, fetchChild));
    }
  }

  lemma JoinEmpty(y: Option<seq<string>>)
    ensures Join(Some([]), y) == y
  {
    if y.Some? {
      assert [] + y.value == y.value;
    }
  }

  lemma JoinAssoc(x: Option<seq<string>>, y: Option<seq<string>>, z: Option<seq<string>>)
    ensures Join(x, Join(y, z)) == Join(Join(x, y), z)
  {
    if x.Some? && y.Some? && z.Some? {
      assert x.value + (y.value + z.value) == (x.value + y.value) + z.value;
    }
  }

  /** One `<sitemap>` entry: nothing without a loc, a failure when its
      child cannot be read, that child's URLs otherwise. */
  lemma IndexLocsOne(s: Xml, fetchChild: string -> Option<Xml>)
    ensures IndexLocs([s], fetchChild) ==
      match LocOf(s)
      case None => Some([])
      case Some(u) =>
        match fetchChild(u)
        case None => None
        case Some(child) => Some(UrlsetLocs(child))
  {
    assert [s][1..] == [];
    if EntryLocs(s, fetchChild).Some? {
      assert EntryLocs(s, fetchChild).value + [] == EntryLocs(s, fetchChild).value;
    }
  }

  /** CSV_Main's `sitemap` reading step: a `sitemapindex` is flattened one
      level, a `urlset` gives its own locs, any other root gives nothing. */
  function SampleUrls(root: Xml, fetchChild: string -> Option<Xml>): Option<seq<string>>
  {
    if EndsWith(root.tag, "sitemapindex") then IndexLocs(FindAll(root.children, Qualified("sitemap")), fetchChild)
    else if EndsWith(root.tag, "urlset") then Some(UrlsetLocs(root))
    else Some([])
  }

  /** Reading the sitemap fails exactly when the root is a `sitemapindex`
      one of whose `<sitemap>` entries names a child that cannot be fetched
      and parsed (lines 510-511 raise there). */
  lemma SampleUrlsFails(root: Xml, fetchChild: string -> Option<Xml>)
    ensures SampleUrls(root, fetchChild).None? <==>
      EndsWith(root.tag, "sitemapindex") && SomeChildFails(FindAll(root.children, Qualified("sitemap")), fetchChild)
  {
    IndexLocsFails(FindAll(root.children, Qualified("sitemap")), fetchChild);
  }

  /** When the read succeeds, a URL is listed exactly when: for an index,
      some `<sitemap>` child names a child urlset that lists it; for a
      `urlset`, some top-level `<url>` entry has it as its loc; for any
      other root, never. */
  lemma SampleUrlsListed(root: Xml, fetchChild: string -> Option<Xml>, u: string)
    requires SampleUrls(root, fetchChild).Some?
    ensures u in SampleUrls(root, fetchChild).value <==>
      if EndsWith(root.tag, "sitemapindex") then ListedByChild(FindAll(root.children, Qualified("sitemap")), fetchChild, u)
      else (EndsWith(root.tag, "urlset") && exists e :: e in root.children && e.tag == Qualified("url") && LocOf(e) == Some(u))
  {
    if EndsWith(root.tag, "sitemapindex") {
      IndexLocsListed(FindAll(root.children, Qualified("sitemap")), fetchChild, u);
    }
  }

  /** An entry `<url><loc>u</loc></url>` / `<sitemap><loc>u</loc></sitemap>`. */
  function Entry(kind: string, u: string): Xml {
    Xml(Qualified(kind), None, [Xml(Qualified("loc"), Some(u), [])])
  }

  /** An entry whose loc text has no outer whitespace gives that text. */
  lemma EntryLoc(kind: string, u: string)
    requires u != "" && !IsSpace(u[0]) && !IsSpace(u[|u| - 1])
    ensures LocOf(Entry(kind, u)) == Some(u)
  {
    StripKeepsTight(u, IsSpace);
    assert FindAll(Entry(kind, u).children, Qualified("loc")) == [Xml(Qualified("loc"), Some(u), [])] by {
      FindAllOne(Xml(Qualified("loc"), Some(u), []), Qualified("loc"));
    }
  }

  /** The `<sitemap>` entries of a two-entry index are both entries, in order. */
  lemma TwoEntryIndex(e1: Xml, e2: Xml, fetchChild: string -> Option<Xml>)
    requires e1.tag == Qualified("sitemap") && e2.tag == Qualified("sitemap")
    ensures SampleUrls(Xml(Qualified("sitemapindex"), None, [e1, e2]), fetchChild) == IndexLocs([e1] + [e2], fetchChild)
  {
    var root := Xml(Qualified("sitemapindex"), None, [e1, e2]);
    assert EndsWith(root.tag, "sitemapindex");
    assert root.children == [e1] + [e2];
    FindAllAppend([e1], [e2], Qualified("sitemap"));
    FindAllOne(e1, Qualified("sitemap"));
    FindAllOne(e2, Qualified("sitemap"));
  }

  /** An index over two child sitemaps yields the first child's URLs, then
      the second's. */
  lemma IndexFlattensInOrder(u1: string, u2: string, c1: Xml, c2: Xml, fetchChild: string -> Option<Xml>)
    requires u1 != "" && u2 != "" && !IsSpace(u1[0]) && !IsSpace(u1[|u1| - 1])
      && !IsSpace(u2[0]) && !IsSpace(u2[|u2| - 1])
    requires fetchChild(u1) == Some(c1) && fetchChild(u2) == Some(c2)
    ensures var root := Xml(Qualified("sitemapindex"), None, [Entry("sitemap", u1), Entry("sitemap", u2)]);
      SampleUrls(root, fetchChild) == Some(UrlsetLocs(c1) + UrlsetLocs(c2))
  {
    var e1, e2 := Entry("sitemap", u1), Entry("sitemap", u2);
    EntryLoc("sitemap", u1);
    EntryLoc("sitemap", u2);
    TwoEntryIndex(e1, e2, fetchChild);
    IndexLocsAppend([e1], [e2], fetchChild);
    IndexLocsOne(e1, fetchChild);
    IndexLocsOne(e2, fetchChild);
  }

  /** How the user answers the "(p)roduct, (l)isting, or (r)e-do" prompt. */
  datatype Answer = AsProduct | AsListing | Redo | Invalid

  /** How CSV_Main's `sitemap` loop ends. */
  datatype Sample = NoUrls | Exhausted | Confirmed(url: string, kind: Answer, html: string)

  /** Round `i`, on URL `u`, goes on to another round: the user answered
      "r" or something invalid, or the page's HTML did not arrive. */
  predicate Skipped(answer: (nat, string) -> Answer, collect: string -> Option<string>, i: nat, u: string) {
    answer(i, u) == Redo || answer(i, u) == Invalid || collect(u).None? || collect(u) == Some("")
  }

  /** Every round among the first `n` went on to another round. */
  predicate AllSkipped(answer: (nat, string) -> Answer, collect: string -> Option<string>, order: seq<string>, n: nat)
    requires n <= |order|
  {
    forall i :: 0 <= i < n ==> Skipped(answer, collect, i, order[i])
  }

  /** The bookkeeping of one round: trying a new URL keeps `tried` and the
      trial order in step, and the order free of repeats. */
  lemma TryNew(order: seq<string>, tried: set<string>, c: string)
    requires forall u :: u in order <==> u in tried
    requires forall i, j :: 0 <= i < j < |order| ==> order[i] != order[j]
    requires c !in tried
    ensures forall u :: u in order + [c] <==> u in tried + {c}
    ensures forall i, j :: 0 <= i < j < |order + [c]| ==> (order + [c])[i] != (order + [c])[j]
    ensures |tried + {c}| == |tried| + 1
  {
  }

  /** Appending a round keeps the earlier rounds' record, and a skipped
      round extends it. */
  lemma SkipRecorded(answer: (nat, string) -> Answer, collect: string -> Option<string>, order: seq<string>, c: string)
    requires AllSkipped(answer, collect, order, |order|)
    ensures AllSkipped(answer, collect, order + [c], |order|)
    ensures Skipped(answer, collect, |order|, c) ==> AllSkipped(answer, collect, order + [c], |order| + 1)
  {
    assert forall i :: 0 <= i < |order| ==> (order + [c])[i] == order[i];
  }

  /** The `tried` loop of CSV_Main's `sitemap`: each round picks some URL not
      yet tried (`random.choice`), marks it tried, asks the user, and stops at
      the first URL the user classifies whose HTML arrives. `order` lists the
      URLs in the order they were tried. */
  method PickSample(urls: seq<string>, answer: (nat, string) -> Answer, collect: string -> Option<string>)
    returns (s: Sample, tried: set<string>, rounds: nat, order: seq<string>)
    ensures s.NoUrls? <==> urls == []
    ensures tried <= set u | u in urls
    ensures rounds == |tried| == |order| <= |set u | u in urls|
    ensures forall u :: u in order <==> u in tried
    ensures forall i, j :: 0 <= i < j < |order| ==> order[i] != order[j]
    ensures s.Exhausted? ==> tried == set u | u in urls
    ensures s.Exhausted? ==> forall i :: 0 <= i < |order| ==> Skipped(answer, collect, i, order[i])
    ensures s.Confirmed? ==> forall i :: 0 <= i < |order| - 1 ==> Skipped(answer, collect, i, order[i])
    ensures s.Confirmed? ==>
      && s.url in tried && rounds > 0 && s.url == order[|order| - 1]
      && s.kind == answer(rounds - 1, s.url) && (s.kind == AsProduct || s.kind == AsListing)
      && collect(s.url) == Some(s.html) && s.html != ""
  {
    if urls == [] {
      return NoUrls, {}, 0, [];
    }
    var all := set u | u in urls;
    s, tried, rounds, order := TryRounds(all, answer, collect);
  }

  /** The rounds of the `tried` loop over the distinct URLs `all`. */
  method TryRounds(all: set<string>, answer: (nat, string) -> Answer, collect: string -> Option<string>)
    returns (s: Sample, tried: set<string>, rounds: nat, order: seq<string>)
    ensures s.Exhausted? || s.Confirmed?
    ensures tried <= all
    ensures rounds == |tried| == |order| <= |all|
    ensures forall u :: u in order <==> u in tried
    ensures forall i, j :: 0 <= i < j < |order| ==> order[i] != order[j]
    ensures s.Exhausted? ==> tried == all
    ensures s.Exhausted? ==> AllSkipped(answer, collect, order, |order|)
    ensures s.Confirmed? ==> |order| > 0 && AllSkipped(answer, collect, order, |order| - 1)
    ensures s.Confirmed? ==>
      && s.url in tried && rounds > 0 && s.url == order[|order| - 1]
      && s.kind == answer(rounds - 1, s.url) && (s.kind == AsProduct || s.kind == AsListing)
      && collect(s.url) == Some(s.html) && s.html != ""
  {
    tried, rounds, order := {}, 0, [];
    while tried != all
      invariant tried <= all
      invariant rounds == |tried| == |order|
      invariant forall u :: u in order <==> u in tried
      invariant forall i, j :: 0 <= i < j < |order| ==> order[i] != order[j]
      invariant AllSkipped(answer, collect, order, |order|)
      decreases all - tried
    {
      assert exists c :: c in all && c !in tried by {
        assert !(all <= tried);
      }
      var candidate :| candidate in all && candidate !in tried;
      TryNew(order, tried, candidate);
      SkipRecorded(answer, collect, order, candidate);
      var round := rounds;
      tried, rounds, order := tried + {candidate}, rounds + 1, order + [candidate];
      var choice := answer(round, candidate);
      if choice == Redo || choice == Invalid {
        continue;
      }
      var html := collect(candidate);
      if html.None? || html.value == "" {
        continue;
      }
      assert |all| == |tried| + |all - tried|;
      assert order[|order| - 1] == candidate && round == rounds - 1;
      return Confirmed(candidate, choice, html.value), tried, rounds, order;
    }
    return Exhausted, tried, rounds, order;
  }
}
