/**
 * The file-serving handler: serveFile (trans.go:533-627) and the
 * ServeHTTP entry of the file handler (trans.go:640-647), over a tree whose
 * root is opened through Dir.Open (trans.go:81-95), which stands in for the
 * standard library's http.Dir that the program registers.
 */
module Server {
  import opened Wrappers
  import opened Segments
  import opened Paths
  import opened Streams
  import opened FileSystem
  import opened Platform
  import opened Http
  import opened Cache
  import opened Listing
  import opened Content

  const FaviconPath := "/favicon.ico"

  /** The favicon is served from the static tree for every other root. */
  predicate IsFaviconRedirect(r: Request, root: string)
  {
    r.path == FaviconPath && root != "static"
  }

  /** The stream an opened regular file reads from. */
  function OpenStream(n: Node): Stream
    requires n.File?
  {
    Stream(n.data, 0, n.seekable)
  }

  function LastChar(s: string): char
    requires s != ""
  {
    s[|s| - 1]
  }

  /**
   * serveFile redirects before it looks at the time: a directory URL
   * without its trailing slash, and, when asked to, a file URL with one.
   */
  predicate Redirects(r: Request, node: Node, redirect: bool)
  {
    || (node.Dir? && (r.path == "" || LastChar(r.path) != '/'))
    || (redirect && node.File? && r.path != "" && LastChar(r.path) == '/')
  }

  /**
   * serveFile for the request `r` and the slash-separated `name` under the
   * root directory `root`. Response headers start empty.
   */
  function ServeFile(r: Request, root: string, fs: FS, name: string, redirect: bool,
                     env: Env, hostSep: char): (resp: Response)
    requires redirect ==> r.path != ""
    ensures IsFaviconRedirect(r, root) ==>
      resp.status == 301 && "Location" in resp.header
      && StartsWith(resp.header["Location"], "/s" + FaviconPath)
    ensures !IsFaviconRedirect(r, root) && DirOpen(root, name, fs, hostSep).Err? ==>
      resp.status == 500 && resp.body == Text("500 Internal Server Error\n")
    ensures resp.status == 200 ==> OpenedPath(root, name) in fs
    ensures resp.status == 200 && fs[OpenedPath(root, name)].File? && r.verb != "HEAD" ==>
      resp.body.Chunks? && Concat(resp.body.writes) == fs[OpenedPath(root, name)].data
    ensures resp.status == 200 && fs[OpenedPath(root, name)].Dir? ==>
      HeaderGet(resp.header, "Content-Type") == HtmlType
    ensures resp.status == 304 ==>
      OpenedPath(root, name) in fs
      && CheckIfModifiedSince(r.verb, r.header, fs[OpenedPath(root, name)].modTime, env.parseHttpTime) == CondFalse
    ensures resp.status == 304 ==> "Content-Type" !in resp.header && "Content-Length" !in resp.header
    ensures !IsFaviconRedirect(r, root) && DirOpen(root, name, fs, hostSep).Ok? ==>
      var node := fs[OpenedPath(root, name)];
      && (resp.status == 301 <==> Redirects(r, node, redirect))
      && (!Redirects(r, node, redirect) ==>
            (resp.status == 304 <==> CheckIfModifiedSince(r.verb, r.header, node.modTime, env.parseHttpTime) == CondFalse))
      && (!Redirects(r, node, redirect) && node.Dir?
          && CheckIfModifiedSince(r.verb, r.header, node.modTime, env.parseHttpTime) != CondFalse ==>
            resp == DirList(SetLastModified(map[], node.modTime, env.httpDate), env.readDir(OpenedPath(root, name)), env))
      && (!Redirects(r, node, redirect) && node.File?
          && CheckIfModifiedSince(r.verb, r.header, node.modTime, env.parseHttpTime) != CondFalse ==>
            resp == ServeContent(map[], r.verb, Base(OpenedPath(root, name)), node.modTime, OpenStream(node), env))
  {
    var h: Header := map[];
    if IsFaviconRedirect(r, root) then LocalRedirect(h, r, "/s" + FaviconPath)
    else match DirOpen(root, name, fs, hostSep)
      case Err(e) =>
        var (msg, code) := ToHttpError(e);
        Error(h, msg, code)
      case Ok(handle) => ServeOpened(r, handle, redirect, env)
  }

  /** serveFile once the name has been opened: redirects, then 304, a listing or the content. */
  function ServeOpened(r: Request, handle: Handle, redirect: bool, env: Env): (resp: Response)
    requires redirect ==> r.path != ""
    ensures resp.status == 200 || resp.status == 304 || resp.status == 301 || resp.status == 500
    ensures resp.status == 200 && handle.node.File? && r.verb != "HEAD" ==>
      resp.body.Chunks? && Concat(resp.body.writes) == handle.node.data
    ensures resp.status == 200 && handle.node.Dir? ==>
      HeaderGet(resp.header, "Content-Type") == HtmlType
    ensures resp.status == 301 <==> Redirects(r, handle.node, redirect)
    ensures handle.node.Dir? && (r.path == "" || LastChar(r.path) != '/') ==>
      HeaderGet(resp.header, "Location") == Base(r.path) + "/" + QuerySuffix(r.rawQuery)
    ensures handle.node.File? && redirect && LastChar(r.path) == '/' ==>
      HeaderGet(resp.header, "Location") == "../" + Base(r.path) + QuerySuffix(r.rawQuery)
    ensures !Redirects(r, handle.node, redirect) ==>
      (resp.status == 304 <==> CheckIfModifiedSince(r.verb, r.header, handle.node.modTime, env.parseHttpTime) == CondFalse)
    ensures resp.status == 304 ==>
      CheckIfModifiedSince(r.verb, r.header, handle.node.modTime, env.parseHttpTime) == CondFalse
      && "Content-Type" !in resp.header && "Content-Length" !in resp.header
    ensures !Redirects(r, handle.node, redirect) && handle.node.Dir?
            && CheckIfModifiedSince(r.verb, r.header, handle.node.modTime, env.parseHttpTime) != CondFalse ==>
      (resp.status == 200 <==> env.readDir(handle.path).Some? && env.indexPart.Some?)
    ensures !Redirects(r, handle.node, redirect) && handle.node.Dir?
            && CheckIfModifiedSince(r.verb, r.header, handle.node.modTime, env.parseHttpTime) != CondFalse ==>
      resp == DirList(SetLastModified(map[], handle.node.modTime, env.httpDate), env.readDir(handle.path), env)
    ensures !Redirects(r, handle.node, redirect) && handle.node.File?
            && CheckIfModifiedSince(r.verb, r.header, handle.node.modTime, env.parseHttpTime) != CondFalse ==>
      (resp.status == 200 <==> handle.node.seekable)
    ensures !Redirects(r, handle.node, redirect) && handle.node.File?
            && CheckIfModifiedSince(r.verb, r.header, handle.node.modTime, env.parseHttpTime) != CondFalse ==>
      resp == ServeContent(map[], r.verb, Base(handle.path), handle.node.modTime, OpenStream(handle.node), env)
  {
    var h: Header := map[];
    var isDir := handle.node.Dir?;
    var url := r.path;
    if redirect && isDir && LastChar(url) != '/' then
      RedirectLocation(h, r, Base(url) + "/");
      LocalRedirect(h, r, Base(url) + "/")
    else if redirect && !isDir && LastChar(url) == '/' then
      RedirectLocation(h, r, "../" + Base(url));
      LocalRedirect(h, r, "../" + Base(url))
    else if isDir && (url == "" || LastChar(url) != '/') then
      RedirectLocation(h, r, Base(url) + "/");
      LocalRedirect(h, r, Base(url) + "/")
    else
      var modtime := handle.node.modTime;
      if CheckIfModifiedSince(r.verb, r.header, modtime, env.parseHttpTime) == CondFalse then
        WriteNotModified(h)
      else if isDir then
        DirList(SetLastModified(h, modtime, env.httpDate), env.readDir(handle.path), env)
      else
        ServeContent(h, r.verb, Base(handle.path), modtime, OpenStream(handle.node), env)
  }

  /**
   * A directory requested without its trailing slash is redirected to its
   * base name, a slash and the query; when the base name is a plain
   * reference that resolves to the same URL path with the slash added.
   */
  lemma DirectoryRedirectAddsSlash(r: Request, root: string, fs: FS, name: string, env: Env, hostSep: char)
    requires !IsFaviconRedirect(r, root)
    requires DirOpen(root, name, fs, hostSep).Ok? && fs[OpenedPath(root, name)].Dir?
    requires IsRooted(r.path) && LastChar(r.path) != '/'
    ensures var resp := ServeFile(r, root, fs, name, false, env, hostSep);
      && resp.status == 301
      && HeaderGet(resp.header, "Location") == Base(r.path) + "/" + QuerySuffix(r.rawQuery)
      && (PlainReference(Base(r.path)) ==> Resolve(r.path, HeaderGet(resp.header, "Location")) == r.path + "/")
  {
    if PlainReference(Base(r.path)) {
      RedirectResolvesToSlashed(r.path, QuerySuffix(r.rawQuery));
    }
  }

  /** The file handler's ServeHTTP: the path is made absolute, then cleaned, then served. */
  function ServeHttp(r: Request, root: string, fs: FS, env: Env, hostSep: char): (resp: Response)
    ensures resp.status == 200 ==> OpenedPath(root, r.path) in fs
    ensures var upath := if StartsWith(r.path, "/") then r.path else "/" + r.path;
      hostSep == '/' ==> resp == ServeFile(r.(path := upath), root, fs, r.path, false, env, hostSep)
  {
    var upath := if StartsWith(r.path, "/") then r.path else "/" + r.path;
    CleanTwiceOpensSame(r.path, root);
    ServeFile(r.(path := upath), root, fs, Clean(upath), false, env, hostSep)
  }

  /**
   * Cleaning the request path before Dir.Open cleans it again changes
   * nothing: the handler opens what Dir.Open would open for the raw path.
   */
  lemma CleanTwiceOpensSame(path: string, root: string)
    ensures var upath := if StartsWith(path, "/") then path else "/" + path;
      OpenedPath(root, Clean(upath)) == OpenedPath(root, path)
  {
    var upath := if StartsWith(path, "/") then path else "/" + path;
    assert IsRooted(upath);
    CleanExtraSlash(Clean(upath));
    CleanRootedIdempotent(upath);
    if StartsWith(path, "/") {
      CleanExtraSlash(path);
    }
  }

  /**
   * Whatever the request path, ServeHTTP only serves a path made of the
   * root's own elements followed by names; under an absolute root that path
   * is the cleaned root or lies beneath it.
   */
  lemma ServedPathWithinRoot(r: Request, root: string, fs: FS, env: Env, hostSep: char)
    requires ServeHttp(r, root, fs, env, hostSep).status == 200
    ensures OpenedPath(root, r.path) in fs
    ensures IsRooted(root) ==> Within(OpenedPath(root, r.path), Clean(root))
  {
    DirOpenConfined(root, r.path);
  }
}
