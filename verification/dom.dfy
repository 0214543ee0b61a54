/** The parsed-HTML collaborator (BeautifulSoup with its CSS selector engine),
    kept uninterpreted: the model only fixes how its answers are used. The
    type parameter `E` stands for a tag; the parsed document is itself a tag,
    as a BeautifulSoup object is. */
module Dom {
  import opened Maybe

  /** The answer to `scope.select(selector)`: the matched tags in document
      order, or an exception (a malformed selector, a wrong argument type). */
  datatype Selection<E> = Raised | Found(elements: seq<E>)

  /** The answer to `scope.select_one(selector)`. */
  datatype One<E> = Threw | NoMatch | Match(element: E)

  /** The engine: parse HTML, select with CSS, read text and `href`. */
  datatype Engine<!E> = Engine(
    parse: string -> E,                  // BeautifulSoup(html, "html.parser")
    select: (E, string) -> Selection<E>, // tag.select(selector)
    text: E -> string,                   // tag.get_text(strip=True)
    href: E -> Option<string>)           // tag.get("href")

  /** `if soup.select(current)` succeeds without raising and is non-empty. */
  predicate Accepts<E>(eng: Engine<E>, scope: E, selector: string) {
    eng.select(scope, selector).Found? && |eng.select(scope, selector).elements| > 0
  }

  /** `select_one` is `select` limited to the first match. */
  function SelectOne<E>(eng: Engine<E>, scope: E, selector: string): (r: One<E>)
    ensures r.Threw? <==> eng.select(scope, selector).Raised?
    ensures r.Match? <==> Accepts(eng, scope, selector)
    ensures r.Match? ==> r.element == eng.select(scope, selector).elements[0]
  {
    match eng.select(scope, selector)
    case Raised => Threw
    case Found(els) => if |els| == 0 then NoMatch else Match(els[0])
  }

  /** `link.get("href")` is truthy. */
  predicate HasHref<E>(eng: Engine<E>, el: E) {
    eng.href(el).Some? && eng.href(el).value != ""
  }
}
