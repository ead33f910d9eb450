/** Session bootstrap: deciding what to do with the descriptor returned by the
    apps.connections.open call. The HTTP request itself is not modelled; its
    decoded response is the input. */
module Bootstrap {
  import opened Messages

  /** The decoded JSON response of apps.connections.open. */
  datatype OpenConnectionsResponse = OpenConnectionsResponse(ok: bool, url: Option<string>, error: Option<string>)

  /** Why startup stops before any connection is attempted. */
  datatype StartupError =
    | ConnectionsOpenFailed(error: string)   // ok was false
    | NoUrl                                  // ok was true but no url was sent

  datatype Startup = Connect(url: string) | Abort(failure: StartupError)

  const UnknownError: string := "Unknown error"

  /** The descriptor check run on the bootstrap response: a response that is
      not ok aborts with its error text (or "Unknown error" when it has none),
      whatever url it carries; an ok response without a url aborts; otherwise
      the url is the one to connect to. */
  function CheckDescriptor(r: OpenConnectionsResponse): (s: Startup)
    ensures s.Connect? <==> r.ok && r.url.Some?
    ensures s.Connect? ==> s.url == r.url.value
    ensures !r.ok ==> s == Abort(ConnectionsOpenFailed(if r.error.Some? then r.error.value else UnknownError))
    ensures r.ok && r.url.None? ==> s == Abort(NoUrl)
  {
    if !r.ok then Abort(ConnectionsOpenFailed(r.error.GetOr(UnknownError)))
    else
      match r.url
      case None => Abort(NoUrl)
      case Some(u) => Connect(u)
  }

  /** The panic message the process ends with for a startup failure. */
  function PanicMessage(e: StartupError): string {
    match e
    case ConnectionsOpenFailed(error) => "app.connections.open failed: " + error
    case NoUrl => "no url passed from server"
  }

  /** A response that is not ok is never used to connect, and the message the
      process ends with carries the server's error text after the fixed
      prefix, or "Unknown error" when the server sent none. */
  lemma NotOkSurfacesError(r: OpenConnectionsResponse)
    requires !r.ok
    ensures CheckDescriptor(r).Abort?
    ensures var m := PanicMessage(CheckDescriptor(r).failure);
      var prefix := "app.connections.open failed: ";
      |m| >= |prefix| && m[..|prefix|] == prefix
      && m[|prefix|..] == (match r.error case Some(e) => e case None => UnknownError)
  {
  }

  /** The check depends only on the fields it is meant to look at: the error
      text matters only when ok is false, and the url only when ok is true. */
  lemma DescriptorIgnoresIrrelevantFields(r: OpenConnectionsResponse, url': Option<string>, error': Option<string>)
    ensures !r.ok ==> CheckDescriptor(r) == CheckDescriptor(r.(url := url'))
    ensures r.ok ==> CheckDescriptor(r) == CheckDescriptor(r.(error := error'))
  {
  }

  /** Scenario: {ok: false, error: "invalid_auth"} aborts before any connection
      attempt, surfacing "invalid_auth". */
  lemma InvalidAuthExample()
    ensures CheckDescriptor(OpenConnectionsResponse(false, None, Some("invalid_auth")))
      == Abort(ConnectionsOpenFailed("invalid_auth"))
    ensures PanicMessage(ConnectionsOpenFailed("invalid_auth")) == "app.connections.open failed: invalid_auth"
  {
  }
}
