/** Request dispatch of `MyHandler` (main.py:27-45, 79-81): GET matches the
    parsed path component against three fixed routes and otherwise serves a
    file; POST compares `self.path` itself with `/message`. `rawPath` is
    `self.path` as `BaseHTTPRequestHandler` hands it to the handler. */
module Router {
  import opened Url

  /** The request method. `MyHandler` defines only `do_GET` and `do_POST`;
      for any other method `BaseHTTPRequestHandler` replies 501. `Other`
      stands for a command other than `GET` and `POST`. */
  datatype Method = Get | Post | Other(name: string)

  /** What a handler does with a request. */
  datatype Action =
    | SendHtml(file: string, status: nat)   // `send_html`: the file's bytes as text/html
    | RenderTemplate(template: string)      // `render_template` with the loaded store, status 200
    | SendStatic(file: string)              // `send_static`, status 200
    | SaveAndRedirect(location: string)     // parse the body, append it, reply 302 with Location
    | BareStatus(status: nat)               // a status line and no body
    | Unsupported(name: string)             // 501 from the base class

  /** The status code each action replies with. */
  function StatusOf(a: Action): (status: nat)
  {
    match a
    case SendHtml(_, status) => status
    case RenderTemplate(_) => 200
    case SendStatic(_) => 200
    case SaveAndRedirect(_) => 302
    case BareStatus(status) => status
    case Unsupported(_) => 501
  }

  /** `route.path[1:]`: the path with its first character removed. */
  function RelativeFile(path: string): (file: string)
  {
    if |path| == 0 then "" else path[1..]
  }

  predicate IsFixedGetPath(path: string)
  {
    path == "/" || path == "/message.html" || path == "/read"
  }

  /** `do_GET` (main.py:28-42). `fileExists` stands for `Path.exists` on
      `BASE_DIR` joined with the relative name. */
  function RouteGet(rawPath: string, fileExists: string -> bool): (a: Action)
  {
    RouteGetPath(UrlPath(rawPath), fileExists)
  }

  /** The `match` on the parsed path (main.py:30-42): the two fixed pages,
      the view, and otherwise the named file if it exists or the error page
      with 404. */
  function RouteGetPath(path: string, fileExists: string -> bool): (a: Action)
    ensures a.SendHtml? || a.RenderTemplate? || a.SendStatic?
    ensures path == "/" ==> a == SendHtml("index.html", 200)
    ensures path == "/message.html" ==> a == SendHtml("message.html", 200)
    ensures a.RenderTemplate? <==> path == "/read"
    ensures a.RenderTemplate? ==> a.template == "read.html"
    ensures a.SendStatic? <==> !IsFixedGetPath(path) && fileExists(RelativeFile(path))
    ensures a.SendStatic? ==> a.file == RelativeFile(path)
    ensures StatusOf(a) == 404 <==> !IsFixedGetPath(path) && !fileExists(RelativeFile(path))
    ensures StatusOf(a) == 404 ==> a == SendHtml("error.html", 404)
  {
    if path == "/" then SendHtml("index.html", 200)
    else if path == "/message.html" then SendHtml("message.html", 200)
    else if path == "/read" then RenderTemplate("read.html")
    else
      var file := RelativeFile(path);
      if fileExists(file) then SendStatic(file) else SendHtml("error.html", 404)
  }

  /** `do_POST`'s choice (main.py:45, 79-81): `self.path`, query and all,
      must equal `/message`. */
  function RoutePost(rawPath: string): (a: Action)
    ensures a.SaveAndRedirect? <==> rawPath == "/message"
    ensures a.SaveAndRedirect? ==> a.location == "/"
    ensures !a.SaveAndRedirect? ==> a == BareStatus(404)
    ensures StatusOf(a) == 302 || StatusOf(a) == 404
  {
    if rawPath == "/message" then SaveAndRedirect("/") else BareStatus(404)
  }

  /** The route table of `MyHandler`: GET on the path component of the
      target, POST on the target itself, and 501 for any other method. Only
      a POST to exactly `/message` saves. */
  function Route(verb: Method, rawPath: string, fileExists: string -> bool): (a: Action)
    ensures verb.Get? ==> a == RouteGetPath(UrlPath(rawPath), fileExists)
    ensures verb.Get? ==> StatusOf(a) == 200 || StatusOf(a) == 404
    ensures verb.Post? ==> (a.SaveAndRedirect? <==> rawPath == "/message")
    ensures verb.Post? && !a.SaveAndRedirect? ==> a == BareStatus(404)
    ensures verb.Other? ==> a == Unsupported(verb.name) && StatusOf(a) == 501
    ensures a.SaveAndRedirect? ==> verb.Post? && a.location == "/"
  {
    match verb
    case Get => RouteGet(rawPath, fileExists)
    case Post => RoutePost(rawPath)
    case Other(name) => Unsupported(name)
  }

  /** GET replies 200 or 404, and 404 exactly when the path is none of the
      three fixed routes and names no existing file; the reply is then the
      error page. */
  lemma {:induction false} GetStatus(path: string, fileExists: string -> bool)
    ensures var a := RouteGetPath(path, fileExists);
            (StatusOf(a) == 200 || StatusOf(a) == 404) &&
            (StatusOf(a) == 404 <==> !IsFixedGetPath(path) && !fileExists(RelativeFile(path))) &&
            (StatusOf(a) == 404 ==> a == SendHtml("error.html", 404))
  {
  }

  /** The three fixed routes never look at the file system. */
  lemma {:induction false} FixedRoutesIgnoreFiles(path: string, exists1: string -> bool, exists2: string -> bool)
    requires IsFixedGetPath(path)
    ensures RouteGetPath(path, exists1) == RouteGetPath(path, exists2)
    ensures !RouteGetPath(path, exists1).SendStatic?
  {
  }

  /** A served static file is an existing file named by the path with its
      first character dropped, with no normalisation (`..` segments pass
      through). */
  lemma {:induction false} StaticFileIsPathTail(path: string, fileExists: string -> bool, file: string)
    requires RouteGetPath(path, fileExists) == SendStatic(file)
    ensures fileExists(file)
    ensures !IsFixedGetPath(path)
    ensures (path == "" && file == "") || (|path| == |file| + 1 && path[1..] == file)
  {
  }

  /** GET ignores the query string: a plain target, with or without a
      query, is routed on the target itself (so `/read?x=1` renders the
      view). */
  lemma {:induction false} GetIgnoresQuery(p: string, q: string, fileExists: string -> bool)
    requires PlainTarget(p)
    ensures Route(Get, p, fileExists) == RouteGetPath(p, fileExists)
    ensures Route(Get, p + "?" + q, fileExists) == RouteGetPath(p, fileExists)
  {
    PlainPathUnchanged(p);
    QueryIgnored(p, q);
  }

  /** POST does not ignore the query string: only the exact target
      `/message` saves and redirects to `/`; every other target, including
      `/message?` followed by anything, gets the bare 404. */
  lemma {:induction false} PostMatchesRawTarget(rawPath: string, q: string, fileExists: string -> bool)
    ensures Route(Post, rawPath, fileExists).SaveAndRedirect? <==> rawPath == "/message"
    ensures Route(Post, rawPath, fileExists).SaveAndRedirect? ==> Route(Post, rawPath, fileExists).location == "/"
    ensures !Route(Post, rawPath, fileExists).SaveAndRedirect? ==> Route(Post, rawPath, fileExists) == BareStatus(404)
    ensures Route(Post, "/message?" + q, fileExists) == BareStatus(404)
  {
    assert |"/message?" + q| > |"/message"|;
  }
}
