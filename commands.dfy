/**
  Commands and URLs. A `*url.URL` is represented by the two things the
  crawler ever reads from it: its `String()` form and its `Host`. URL
  parsing and reference resolution (Go's `net/url`) are not modelled; they
  are passed in as functions.
 */
module Commands {
  import opened Wrappers

  datatype Url = Url(text: string, host: string)

  /** A fetch command: target URL and HTTP verb (always "GET" here). */
  datatype Cmd = Cmd(U: Url, M: string)

  /** `url.Parse(s)`, taken as total. */
  type Parser = string -> Url

  /** `parseCmd(s, base)`: parse `s` and resolve it against `base`; `None` is a parse error. */
  type Resolver = (string, Url) -> Option<Url>

  const Get := "GET"

  /** `NewCmd(s)`. */
  function NewCmd(s: string, parse: Parser): Cmd {
    Cmd(parse(s), Get)
  }
}
