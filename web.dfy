/** What the scraper sees of the web. Fetching and HTML parsing are not
    modelled: a page is given as the result a fetch would produce, already
    reduced to what the scraper reads from it. */
module Web {
  import opened Sequences

  /** An `<a>` element: its text and its `href` attribute, if it has one. */
  datatype Link = Link(text: string, href: Option<string>)

  /** The outcome of `requests.get`: the request raised, or a response with its
      status, its links in document order, and the text of the page's
      `div.main_text` and `body` elements when they are present. */
  datatype Response =
    | Unreachable
    | Response(status: int, links: seq<Link>, mainText: Option<string>, body: Option<string>)

  /** `link.get("href", "")`. */
  function Href(l: Link): string
  {
    if l.href.Some? then l.href.value else ""
  }

  const NotFound: int := 404

  /** `urljoin(base, href)`, a library function left uninterpreted. */
  type UrlJoin = (string, string) -> string

  /** The web as a fixed function from URL to response: the same URL fetched
      twice gives the same response. */
  type Fetcher = string -> Response
}
