/** The request handlers: what `do_GET` and `do_POST` send back and what
    they leave in the store file (main.py:28-81, 91-116). */
module Server {
  import opened Wrappers
  import opened Form
  import opened Store
  import opened Router
  import opened Url

  /** What the client receives. */
  datatype Reply =
    | Html(status: nat, file: string)                         // a page's bytes as text/html
    | View(status: nat, template: string, messages: Messages) // a template rendered with the store
    | Static(status: nat, file: string, contentType: string)  // a file's bytes
    | Redirect(status: nat, location: string)                 // a Location header, no body
    | Bare(status: nat)                                       // a status line, no body
    | ErrorPage(status: nat)                                  // the base class's `send_error` page
    | Aborted(fault: FormError)                               // the handler raised; no reply is written

  /** The Content-type of a static file (main.py:112-116): the guessed type,
      or `text/plain` when the guess is missing or empty. */
  function ContentType(guess: Option<string>): (t: string)
    ensures t != ""
    ensures guess.Some? && guess.value != "" ==> t == guess.value
    ensures guess.None? ==> t == "text/plain"
    ensures guess.Some? && guess.value == "" ==> t == "text/plain"
  {
    if guess.Some? && guess.value != "" then guess.value else "text/plain"
  }

  /** Carries out a routing decision that needs no request body. The store
      is read only for the view, with the same load rule as `do_POST`;
      `guessType` stands for `mimetypes.guess_type`. */
  function Perform(a: Action, file: StoreFile, guessType: string -> Option<string>): (r: Reply)
    ensures a.SendHtml? ==> r == Html(a.status, a.file)
    ensures a.RenderTemplate? ==> r == View(200, a.template, Load(file))
    ensures a.SendStatic? ==> r == Static(200, a.file, ContentType(guessType(a.file)))
    ensures a.SaveAndRedirect? ==> r == Redirect(302, a.location)
    ensures a.BareStatus? ==> r == Bare(a.status)
    ensures a.Unsupported? ==> r == ErrorPage(501)
    ensures !r.Aborted? && r.status == StatusOf(a)
  {
    match a
    case SendHtml(f, status) => Html(status, f)
    case RenderTemplate(t) => View(200, t, Load(file))
    case SendStatic(f) => Static(200, f, ContentType(guessType(f)))
    case SaveAndRedirect(location) => Redirect(302, location)
    case BareStatus(status) => Bare(status)
    case Unsupported(_) => ErrorPage(501)
  }

  /** `do_GET`: a 200 reply, or the error page with 404 for a missing file;
      `/read` shows the whole loaded store. */
  function HandleGet(rawPath: string, fileExists: string -> bool, file: StoreFile,
                     guessType: string -> Option<string>): (r: Reply)
    ensures r.Html? || r.View? || r.Static?
    ensures r.status == 200 || r == Html(404, "error.html")
    ensures UrlPath(rawPath) == "/" ==> r == Html(200, "index.html")
    ensures UrlPath(rawPath) == "/message.html" ==> r == Html(200, "message.html")
    ensures r.View? <==> UrlPath(rawPath) == "/read"
    ensures r.View? ==> r == View(200, "read.html", Load(file))
    ensures r.Static? ==> fileExists(r.file) && r.file == RelativeFile(UrlPath(rawPath)) &&
                          r.contentType == ContentType(guessType(r.file))
    ensures !IsFixedGetPath(UrlPath(rawPath)) && fileExists(RelativeFile(UrlPath(rawPath))) ==>
              r.Static? && r.status == 200
    ensures !IsFixedGetPath(UrlPath(rawPath)) && !fileExists(RelativeFile(UrlPath(rawPath))) ==>
              r == Html(404, "error.html")
  {
    var path := UrlPath(rawPath);
    GetStatus(path, fileExists);
    Perform(RouteGetPath(path, fileExists), file, guessType)
  }

  /** `do_POST`: on the exact target `/message` the body is parsed, the
      store loaded, the entry appended under `timestamp` and the file
      rewritten, then 302 to `/`. A body the parser rejects raises before the
      store is touched; any other target gets a bare 404. The returned file
      is the store file afterwards. */
  method HandlePost(rawPath: string, body: string, timestamp: string, file: StoreFile)
    returns (reply: Reply, written: StoreFile)
    ensures rawPath != "/message" ==> reply == Bare(404) && written == file
    ensures rawPath == "/message" && ParseForm(body).Err? ==>
              reply == Aborted(ParseForm(body).error) && written == file
    ensures rawPath == "/message" && ParseForm(body).Ok? ==>
              reply == Redirect(302, "/") && written == Saved(AfterPost(file, timestamp, ParseForm(body).value))
  {
    var action := RoutePost(rawPath);
    if !action.SaveAndRedirect? {
      reply, written := Bare(StatusOf(action)), file;
      return;
    }
    var parsed := ParseForm(body);
    if parsed.Err? {
      reply, written := Aborted(parsed.error), file;
      return;
    }
    var store := new MessageStore(file);
    store.Append(timestamp, parsed.value);
    reply, written := Redirect(302, action.location), Saved(store.messages);
  }

  /** One request, dispatched on its method as `BaseHTTPRequestHandler`
      does. Only a successful POST to `/message` changes the store file. */
  method Handle(verb: Method, rawPath: string, body: string, timestamp: string,
                fileExists: string -> bool, file: StoreFile, guessType: string -> Option<string>)
    returns (reply: Reply, written: StoreFile)
    ensures verb == Get ==> reply == HandleGet(rawPath, fileExists, file, guessType)
    ensures verb.Other? ==> reply == ErrorPage(501)
    ensures verb == Post && rawPath != "/message" ==> reply == Bare(404)
    ensures verb == Post && rawPath == "/message" && ParseForm(body).Err? ==>
              reply == Aborted(ParseForm(body).error)
    ensures verb == Post && rawPath == "/message" && ParseForm(body).Ok? ==> reply == Redirect(302, "/")
    ensures verb == Post && rawPath == "/message" && ParseForm(body).Ok? ==>
              written == Saved(AfterPost(file, timestamp, ParseForm(body).value))
    ensures !(verb == Post && rawPath == "/message" && ParseForm(body).Ok?) ==> written == file
  {
    match verb
    case Get =>
      reply, written := HandleGet(rawPath, fileExists, file, guessType), file;
    case Post =>
      reply, written := HandlePost(rawPath, body, timestamp, file);
    case Other(_) =>
      reply, written := Perform(Route(verb, rawPath, fileExists), file, guessType), file;
  }
}
