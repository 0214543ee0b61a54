/** The collaborators the core calls but does not contain: the HTML engine,
    URL parsing, the two page fetchers and `urljoin`. Each is a parameter,
    so every property proved below holds whatever they answer. */
module World {
  import opened Maybe
  import opened Dom

  /** What a replay fetch produced: scraper_logic's `html_collection` run
      through `asyncio.run`, which returns HTML or `None`, or raises. */
  datatype Fetched = Page(html: string) | NoPage | FetchRaised

  datatype Env<!E> = Env(
    eng: Engine<E>,
    host: string -> Option<string>,     // urlparse(url).hostname
    collect: string -> Option<string>,  // save_data.html_collection, as CSV_Main calls it
    fetch: string -> Fetched,           // scraper_logic.html_collection, as the replay loops call it
    join: (string, string) -> string,   // urljoin(base, url) for a non-empty base
    baseHref: E -> string)              // soup.base["href"] if soup.base else ""

  /** The fetch produced a non-empty page: `if not html: continue` lets it through. */
  predicate Fetches<E>(env: Env<E>, url: string) {
    env.fetch(url).Page? && env.fetch(url).html != ""
  }
}
