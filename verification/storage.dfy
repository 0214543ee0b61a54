/** Naming and path conventions of save_data.py and of the two
    `html_collection` helpers: the URL-to-file-name rewrite, the page slug,
    the dotless domain folder and the per-artifact output paths. A path is
    the list of segments `os.path.join` / `Path /` would glue together. */
module Storage {
  import opened Maybe
  import opened Text
  import opened Json

  /** `urlparse(url).hostname or "unknown"`. */
  function DomainOf(host: Option<string>): (d: string)
    ensures d != ""
    ensures host.Some? && host.value != "" ==> d == host.value
    ensures host.None? || host == Some("") ==> d == "unknown"
  {
    if host.Some? && host.value != "" then host.value else "unknown"
  }

  /** The characters `normalize_url` turns into `_` one by one. */
  predicate Separator(c: char) {
    c == '/' || c == '?' || c == '&' || c == '='
  }

  /** `normalize_url`: `://` first, then `/`, `?`, `&` and `=`, each replaced by `_`. */
  function NormalizeUrl(url: string): (r: string)
    ensures forall c :: c in r ==> !Separator(c)
    ensures |r| == |url| - 2 * Count(url, "://")
  {
    var a := ReplaceAll(url, "://", "_");
    var b := ReplaceAll(a, "/", "_");
    var c := ReplaceAll(b, "?", "_");
    var d := ReplaceAll(c, "&", "_");
    var e := ReplaceAll(d, "=", "_");
    ReplaceAllLength(url, "://", "_");
    ReplaceCharPointwise(a, '/', '_');
    ReplaceCharPointwise(b, '?', '_');
    ReplaceCharPointwise(c, '&', '_');
    ReplaceCharPointwise(d, '=', '_');
    assert forall i :: 0 <= i < |e| ==> !Separator(e[i]);
    e
  }

  /** `normalize_url` is idempotent: its output holds no `/`, so no `://`,
      and none of the single characters it rewrites. */
  lemma NormalizeUrlIdempotent(url: string)
    ensures NormalizeUrl(NormalizeUrl(url)) == NormalizeUrl(url)
  {
    var n := NormalizeUrl(url);
    ReplaceAllAbsent(n, "://", "_", '/');
    ReplaceAllAbsent(n, "/", "_", '/');
    ReplaceAllAbsent(n, "?", "_", '?');
    ReplaceAllAbsent(n, "&", "_", '&');
    ReplaceAllAbsent(n, "=", "_", '=');
  }

  /** `://` collapses to a single `_` because it is replaced before `/`. */
  lemma NormalizeUrlExample()
    ensures NormalizeUrl("https://a/b") == "https_a_b"
  {
    ReplaceAllFirstAfter("https", "a/b", "://", "_");
    assert "https" + "://" + "a/b" == "https://a/b";
    ReplaceAllAbsent("a/b", "://", "_", ':');
    assert "https" + "_" + "a/b" == "https_a/b";
    SlashesToUnderscores("https_a/b", "https_a_b");
  }

  /** Finishes `normalize_url` on a string whose `://` is already gone. */
  lemma SlashesToUnderscores(a: string, e: string)
    requires |a| == |e|
    requires forall i :: 0 <= i < |a| ==> e[i] == (if Separator(a[i]) then '_' else a[i])
    ensures ReplaceAll(ReplaceAll(ReplaceAll(ReplaceAll(a, "/", "_"), "?", "_"), "&", "_"), "=", "_") == e
  {
    var b := ReplaceAll(a, "/", "_");
    var c := ReplaceAll(b, "?", "_");
    var d := ReplaceAll(c, "&", "_");
    ReplaceCharPointwise(a, '/', '_');
    ReplaceCharPointwise(b, '?', '_');
    ReplaceCharPointwise(c, '&', '_');
    ReplaceCharPointwise(d, '=', '_');
  }

  /** Different pages can share a file name: the rewrite is not injective,
      so the later artifact overwrites the earlier one. */
  lemma NormalizeUrlCollides()
    ensures NormalizeUrl("https://a/b") == NormalizeUrl("https://a_b")
  {
    NormalizeUrlExample();
    NormalizeUrlKeepsUnderscore();
  }

  lemma NormalizeUrlKeepsUnderscore()
    ensures NormalizeUrl("https://a_b") == "https_a_b"
  {
    ReplaceAllFirstAfter("https", "a_b", "://", "_");
    assert "https" + "://" + "a_b" == "https://a_b";
    ReplaceAllAbsent("a_b", "://", "_", ':');
    assert "https" + "_" + "a_b" == "https_a_b";
    SlashesToUnderscores("https_a_b", "https_a_b");
  }

  /** The page slug: `path.strip("/")`, then `/` becomes `_`, or `root`
      when nothing is left. */
  function Slug(path: string): (r: string)
    ensures r != "" && '/' !in r
    ensures Strip(path, IsSlash) == "" ==> r == "root"
    ensures var p := Strip(path, IsSlash);
      p != "" ==> |r| == |p| && forall i :: 0 <= i < |p| ==> r[i] == (if p[i] == '/' then '_' else p[i])
  {
    var p := Strip(path, IsSlash);
    if p == "" then "root"
    else
      ReplaceCharPointwise(p, '/', '_');
      assert forall i :: 0 <= i < |p| ==> ReplaceAll(p, "/", "_")[i] != '/';
      ReplaceAll(p, "/", "_")
  }

  /** Leading and trailing slashes never change the slug. */
  lemma SlugIgnoresOuterSlashes(path: string)
    ensures Slug(path) == Slug(Strip(path, IsSlash))
    ensures Slug("/" + path + "/") == Slug(path)
  {
    StripIdempotent(path, IsSlash);
    SlugOfSameStrip(path, Strip(path, IsSlash));
    StripWrappedSlashes(path);
    SlugOfSameStrip("/" + path + "/", path);
  }

  /** Slashes added at both ends are stripped again. */
  lemma StripWrappedSlashes(path: string)
    ensures Strip("/" + path + "/", IsSlash) == Strip(path, IsSlash)
  {
    var q, t := "/" + path + "/", path + "/";
    assert StripLeft(q, IsSlash) == StripLeft(t, IsSlash) by {
      assert q[1..] == t;
    }
    assert Strip(q, IsSlash) == Strip(t, IsSlash);
    StripLeftThenRightSlash(path);
  }

  /** The slug depends on the path only through its slash-stripped form. */
  lemma SlugOfSameStrip(a: string, b: string)
    requires Strip(a, IsSlash) == Strip(b, IsSlash)
    ensures Slug(a) == Slug(b)
  {
  }

  /** Stripping `path + "/"` gives the same as stripping `path`. */
  lemma StripLeftThenRightSlash(path: string)
    ensures Strip(path + "/", IsSlash) == Strip(path, IsSlash)
  {
    var l := StripLeft(path, IsSlash);
    StripLeftAppend(path, "/");
    if l == "" {
      assert StripLeft(path + "/", IsSlash) == StripLeft("/", IsSlash);
    } else {
      assert StripLeft(path + "/", IsSlash) == l + "/";
      assert (l + "/")[..|l|] == l;
    }
  }

  /** Stripping the left end is unaffected by what follows a kept character. */
  lemma {:induction false} StripLeftAppend(s: string, t: string)
    ensures StripLeft(s, IsSlash) != "" ==> StripLeft(s + t, IsSlash) == StripLeft(s, IsSlash) + t
    ensures StripLeft(s, IsSlash) == "" ==> StripLeft(s + t, IsSlash) == StripLeft(t, IsSlash)
    decreases |s|
  {
    if |s| > 0 {
      assert (s + t)[0] == s[0];
      if IsSlash(s[0]) {
        assert (s + t)[1..] == s[1..] + t;
        StripLeftAppend(s[1..], t);
      }
    } else {
      assert s + t == t;
    }
  }

  /** `netloc.replace(".", "_")`: the domain folder keeps every other
      character in place and holds no dot. */
  function DomainFolder(netloc: string): (r: string)
    ensures '.' !in r
    ensures |r| == |netloc|
    ensures forall i :: 0 <= i < |netloc| ==> r[i] == (if netloc[i] == '.' then '_' else netloc[i])
  {
    ReplaceCharPointwise(netloc, '.', '_');
    ReplaceAll(netloc, ".", "_")
  }

  /** The artifacts the crawl export writes, each with its folder and extension. */
  datatype Artifact = Html | Markdown | Screenshot | Metadata | Pdf | JsonDump

  function Folder(kind: Artifact): string {
    match kind
    case Html => "html"
    case Markdown => "markdown"
    case Screenshot => "screenshots"
    case Metadata => "metadata"
    case Pdf => "PDF"
    case JsonDump => "JSON"
  }

  function Extension(kind: Artifact): string {
    match kind
    case Html => ".html"
    case Markdown => ".md"
    case Screenshot => ".png"
    case Metadata => ".json"
    case Pdf => ".pdf"
    case JsonDump => ".json"
  }

  /** Where `html_default`, `markdown_collection`, `screenshot_data`,
      `metadata_data`, `pdf_data` and `json_data` write, or `None` when they
      return without writing: a falsy content argument, or a screenshot
      whose base64 text does not decode. */
  function ArtifactPath(kind: Artifact, url: string, netloc: string, baseDir: string,
                        date: string, content: Value, decodes: bool): (r: Option<seq<string>>)
    ensures r.None? <==> !Truthy(content) || (kind == Screenshot && !decodes)
    ensures r.Some? ==>
      && |r.value| == 6
      && r.value[..5] == [baseDir, "Data", date, DomainFolder(netloc), Folder(kind)]
      && r.value[5] == NormalizeUrl(url) + Extension(kind)
      && EndsWith(r.value[5], Extension(kind))
      && '/' !in r.value[5] && '.' !in r.value[3]
  {
    if !Truthy(content) then None
    else if kind == Screenshot && !decodes then None
    else
      var stem, ext, folder := NormalizeUrl(url), Extension(kind), DomainFolder(netloc);
      assert Separator('/');
      FileNameShape(stem, ext);
      var path := [baseDir, "Data", date, folder, Folder(kind), stem + ext];
      assert path[..5] == [baseDir, "Data", date, folder, Folder(kind)];
      Some(path)
  }

  /** A slash-free stem with a slash-free extension is a slash-free file
      name that ends with that extension. */
  lemma FileNameShape(stem: string, ext: string)
    requires '/' !in stem && '/' !in ext
    ensures EndsWith(stem + ext, ext) && '/' !in stem + ext
  {
    assert (stem + ext)[|stem|..] == ext;
  }

  /** Where an `html_collection` saves a page: under `tree` ("raw" or
      "clean_html"), the day, the host, then `html/<slug>.html`. */
  function PagePath(tree: string, baseDir: string, today: string, host: Option<string>, path: string): (p: seq<string>)
    ensures |p| == 6 && p[..5] == [baseDir, tree, today, DomainOf(host), "html"]
    ensures p[5] == Slug(path) + ".html"
    ensures '/' !in p[5] && EndsWith(p[5], ".html") && |p[5]| > 5
  {
    var name := Slug(path) + ".html";
    assert name[|name| - 5..] == ".html";
    [baseDir, tree, today, DomainOf(host), "html", name]
  }

  /** A page's path does not depend on slashes around its URL path. */
  lemma PagePathIgnoresOuterSlashes(tree: string, baseDir: string, today: string, host: Option<string>, path: string)
    ensures PagePath(tree, baseDir, today, host, "/" + path + "/") == PagePath(tree, baseDir, today, host, path)
  {
    SlugIgnoresOuterSlashes(path);
  }

  /** Two URLs that differ only in a `/` versus a `_` write the same artifact
      file: the second write overwrites the first. */
  lemma ArtifactPathCollides(kind: Artifact, netloc: string, baseDir: string, date: string, content: Value, decodes: bool)
    ensures ArtifactPath(kind, "https://a/b", netloc, baseDir, date, content, decodes)
         == ArtifactPath(kind, "https://a_b", netloc, baseDir, date, content, decodes)
  {
    NormalizeUrlCollides();
  }

  /** What the name `datetime` is bound to in a module: `import datetime`
      binds the module, `from datetime import datetime` the class. */
  datatype DatetimeName = DatetimeModule | DatetimeClass

  /** save_data.py imports the class, yet its `html_collection` calls
      `datetime.datetime.now(...)`. */
  const SaveDataDatetime: DatetimeName := DatetimeClass

  /** save_data's `html_collection` after both crawler runs: prefer the clean
      page, fall back to the raw one, `None` when neither has HTML. Looking
      up `datetime.datetime` on the class raises AttributeError, which the
      function's own `except Exception` turns into `None`. */
  function CollectHtml(name: DatetimeName, raw: Option<string>, clean: Option<string>): Option<string> {
    if name == DatetimeClass then None
    else if clean.Some? && clean.value != "" then clean
    else if raw.Some? && raw.value != "" then raw
    else None
  }

  /** As written, save_data's `html_collection` returns `None` for every page. */
  function CollectHtmlAsWritten(raw: Option<string>, clean: Option<string>): (r: Option<string>)
    ensures r == None
  {
    CollectHtml(SaveDataDatetime, raw, clean)
  }

  /** With the module imported, `html_collection` returns a page whenever
      either crawler run produced one, and the clean page when both did. */
  function CollectHtmlIntended(raw: Option<string>, clean: Option<string>): (r: Option<string>)
    ensures r.Some? <==> (clean.Some? && clean.value != "") || (raw.Some? && raw.value != "")
    ensures r.Some? ==> r.value != "" && (r == clean || r == raw)
    ensures clean.Some? && clean.value != "" ==> r == clean
  {
    CollectHtml(DatetimeModule, raw, clean)
  }
}
