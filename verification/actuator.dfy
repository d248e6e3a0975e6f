/** The servo controller's command protocol: command names, request URLs and responses. */
module Actuator {
  import opened Config
  import opened Optional

  /** The two commands the servo controller accepts. */
  datatype Command = Up | Down

  /** The path segment naming a command. */
  function Name(c: Command): string
  {
    match c
    case Up => "up"
    case Down => "down"
  }

  /** The command a path segment names, if any. */
  function CommandNamed(name: string): (c: Option<Command>)
    ensures c.Some? ==> Name(c.value) == name
  {
    if name == "up" then Some(Up)
    else if name == "down" then Some(Down)
    else None
  }

  /** The request URL for a command: the base address, a slash, then the command's name. */
  function RequestUrl(base: string, c: Command): (url: string)
    ensures |url| == |base| + 1 + |Name(c)|
    ensures url[..|base|] == base
    ensures url[|base|] == '/'
    ensures url[|base| + 1..] == Name(c)
  {
    base + "/" + Name(c)
  }

  /** Reads the command back from a request URL below the given base. */
  function ParseRequestUrl(base: string, url: string): Option<Command>
  {
    if |url| > |base| && url[..|base|] == base && url[|base|] == '/'
    then CommandNamed(url[|base| + 1..])
    else None
  }

  /** Every request URL names the command it was built for. */
  lemma UrlRoundTrip(base: string, c: Command)
    ensures ParseRequestUrl(base, RequestUrl(base, c)) == Some(c)
  {
  }

  /** A URL that parses as a command is exactly that command's request URL. */
  lemma UrlParseSound(base: string, url: string, c: Command)
    requires ParseRequestUrl(base, url) == Some(c)
    ensures url == RequestUrl(base, c)
  {
  }

  /** Different commands go to different URLs. */
  lemma UrlInjective(base: string, c: Command, d: Command)
    requires RequestUrl(base, c) == RequestUrl(base, d)
    ensures c == d
  {
  }

  /** What the HTTP request produced: a response with a status code, or a request exception
      (timeout, connection error and the like). */
  datatype Response = Status(code: int) | RequestFailed

  /** A command is delivered only when the controller answers with status 200 exactly. */
  predicate Succeeded(r: Response)
  {
    r.Status? && r.code == SuccessStatus
  }
}
