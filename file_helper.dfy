/** `FileHelper` (src/utils/fileHelper.js): creating output directories,
    writing text files and downloading an image to a path, following
    HTTP 301/302 redirects. The disk is a map from path to contents plus a
    set of directories; the network is an oracle from (client, URL) to what
    that request produces. */
module FileHelper {
  import opened JsBuiltins

  type Byte = b: int | 0 <= b < 256

  /** File contents: raw bytes (an image stream) or text (`writeFileSync`
      with a string, stored as the string it encodes). */
  datatype Data = Binary(bytes: seq<Byte>) | Text(text: string)

  /** Node's `https` and `http` modules. */
  datatype Client = Https | Http

  /** What `client.get(url, callback)` leads to. */
  datatype Response =
    | Reply(statusCode: int, location: JsStr, body: seq<Byte>)
      // the callback runs with a response; `location` is its Location header
    | RequestError(message: string)
      // the request emits 'error' (DNS failure, refused connection, ...)
    | Threw(message: string)
      // `client.get` throws before any request is made (e.g. an unparsable URL)

  type Network = (Client, string) -> Response

  datatype DownloadError =
    | NoLocation                  // "Redirect with no location header"
    | BadStatus(code: int)        // `Status ${code}`
    | Transport(message: string)  // the request's 'error' event
    | Thrown(message: string)     // the synchronous exception of `client.get`
    | RedirectFuelExhausted       // the model's bound on redirects, see `Resolve`

  /** How the promise returned by `downloadImage` settles. */
  datatype Outcome = Resolved | Rejected(error: DownloadError)

  /** Where a download ends: the final body, or an error together with what
      is left at the destination (nothing, or the empty file the write
      stream created). */
  datatype Fetch = Saved(body: seq<Byte>) | Removed(error: DownloadError) | LeftEmpty(error: DownloadError)

  /** A protocol-relative URL (`//host/path`) is made absolute with
      `https:`; any other URL is used as it is. */
  function Normalize(url: string): (u: string)
    ensures StartsWith(url, "//") ==> u == "https:" + url
    ensures !StartsWith(url, "//") ==> u == url
    ensures StartsWith(u, "https") <==> StartsWith(url, "//") || StartsWith(url, "https")
  {
    if StartsWith(url, "//") then "https:" + url else url
  }

  /** The `https` module serves exactly the URLs that start with "https". */
  function ClientFor(u: string): Client {
    if StartsWith(u, "https") then Https else Http
  }

  /** The outcome of downloading from `url` (already known to be truthy):
      the state machine of `downloadImage`, one request per call. A 301 or
      302 with a truthy Location header restarts the download at that
      location, without a bound in the source; the model allows `fuel`
      further redirects and reports `RedirectFuelExhausted` beyond that. */
  function Resolve(url: string, net: Network, fuel: nat): Fetch
    decreases fuel
  {
    var u := Normalize(url);
    match net(ClientFor(u), u)
    case Threw(m) => LeftEmpty(Thrown(m))
    case RequestError(m) => Removed(Transport(m))
    case Reply(code, location, body) =>
      if code == 301 || code == 302 then
        if !location.Truthy() then Removed(NoLocation)
        else if fuel == 0 then Removed(RedirectFuelExhausted)
        else Resolve(location.s, net, fuel - 1)
      else if code != 200 then Removed(BadStatus(code))
      else Saved(body)
  }

  /** How the promise settles for a download that ends in `f`. */
  function OutcomeOf(f: Fetch): (r: Outcome)
    ensures r == Resolved <==> f.Saved?
  {
    match f
    case Saved(_) => Resolved
    case Removed(e) => Rejected(e)
    case LeftEmpty(e) => Rejected(e)
  }

  /** The disk after a download to `path` that ended in `f`. */
  function Apply(files: map<string, Data>, path: string, f: Fetch): map<string, Data> {
    match f
    case Saved(body) => files[path := Binary(body)]
    case Removed(_) => files - {path}
    case LeftEmpty(_) => files[path := Binary([])]
  }

  /** The disk after `downloadImage(url, path)`: untouched for a falsy
      URL, which resolves at once. */
  function Downloaded(files: map<string, Data>, url: JsStr, path: string, net: Network, fuel: nat): map<string, Data> {
    if url.Truthy() then Apply(files, path, Resolve(url.s, net, fuel)) else files
  }

  /** A download touches its destination and nothing else: the
      destination holds the body after a success, is absent after a
      failure that removed it, and is empty after a throwing `client.get`. */
  lemma ApplyEffect(files: map<string, Data>, path: string, f: Fetch)
    ensures Apply(files, path, f) - {path} == files - {path}
    ensures path in Apply(files, path, f) <==> !f.Removed?
    ensures f.Saved? ==> Apply(files, path, f)[path] == Binary(f.body)
    ensures f.LeftEmpty? ==> Apply(files, path, f)[path] == Binary([])
  {
    var r := Apply(files, path, f);
    forall p ensures p in r - {path} <==> p in files - {path} {
    }
    assert r - {path} == files - {path};
  }

  /** Giving the download more redirects to follow changes nothing once it
      ends without running out of them: for every redirect chain shorter
      than the fuel, `Resolve` is the source's unbounded recursion. */
  lemma {:induction false} ResolveFuelMonotone(url: string, net: Network, fuel: nat, more: nat)
    requires Resolve(url, net, fuel) != Removed(RedirectFuelExhausted)
    requires fuel <= more
    ensures Resolve(url, net, more) == Resolve(url, net, fuel)
    decreases fuel
  {
    var u := Normalize(url);
    match net(ClientFor(u), u)
    case Reply(code, location, body) =>
      if (code == 301 || code == 302) && location.Truthy() && fuel > 0 {
        ResolveFuelMonotone(location.s, net, fuel - 1, more - 1);
      }
    case _ =>
  }

  /** A 301/302 with a Location header: the outcome is that of downloading
      the Location to the same path (with one redirect fewer to spend). */
  lemma ResolveRedirect(url: string, net: Network, fuel: nat)
    requires var u := Normalize(url);
             var resp := net(ClientFor(u), u);
             resp.Reply? && (resp.statusCode == 301 || resp.statusCode == 302) && resp.location.Truthy()
    ensures var u := Normalize(url);
            Resolve(url, net, fuel + 1) == Resolve(net(ClientFor(u), u).location.s, net, fuel)
  {
  }

  /** What the first request decides on its own: a redirect without a
      Location header and any status other than 200, 301 and 302 reject
      with the destination removed, a failed request rejects with it
      removed too, a throwing `client.get` rejects leaving the empty file,
      and a 200 saves its body. */
  lemma ResolveFirstRequest(url: string, net: Network, fuel: nat)
    ensures var u := Normalize(url);
            var resp := net(ClientFor(u), u);
            var f := Resolve(url, net, fuel);
            && (resp.Reply? && (resp.statusCode == 301 || resp.statusCode == 302) && !resp.location.Truthy() ==>
                  f == Removed(NoLocation))
            && (resp.Reply? && resp.statusCode != 200 && resp.statusCode != 301 && resp.statusCode != 302 ==>
                  f == Removed(BadStatus(resp.statusCode)))
            && (resp.RequestError? ==> f == Removed(Transport(resp.message)))
            && (resp.Threw? ==> f == LeftEmpty(Thrown(resp.message)))
            && (resp.Reply? && resp.statusCode == 200 ==> f == Saved(resp.body))
  {
  }

  /** The response to the last request of the redirect chain: the chain
      goes on while the reply is a 301/302 with a Location (and `fuel`
      lasts). */
  function FinalResponse(url: string, net: Network, fuel: nat): Response
    decreases fuel
  {
    var u := Normalize(url);
    var resp := net(ClientFor(u), u);
    if resp.Reply? && (resp.statusCode == 301 || resp.statusCode == 302) && resp.location.Truthy() && fuel > 0
    then FinalResponse(resp.location.s, net, fuel - 1)
    else resp
  }

  /** A download is decided by the last request of its chain: it saves
      exactly when that request got a 200, and then its body; it leaves the
      empty file exactly when that `client.get` threw (every earlier file of
      the chain was unlinked by its redirect); it runs out of fuel only on a
      redirect. */
  lemma {:induction false} ResolveFinal(url: string, net: Network, fuel: nat)
    ensures var last := FinalResponse(url, net, fuel);
            var f := Resolve(url, net, fuel);
            && (f.LeftEmpty? <==> last.Threw?)
            && (f.Saved? <==> last.Reply? && last.statusCode == 200)
            && (f.Saved? ==> f.body == last.body)
            && (f == Removed(RedirectFuelExhausted) ==>
                  last.Reply? && (last.statusCode == 301 || last.statusCode == 302) && last.location.Truthy())
    decreases fuel
  {
    var u := Normalize(url);
    var resp := net(ClientFor(u), u);
    if resp.Reply? && (resp.statusCode == 301 || resp.statusCode == 302) && resp.location.Truthy() && fuel > 0 {
      ResolveFinal(resp.location.s, net, fuel - 1);
    }
  }

  /** The disk after a download, in terms of the last response: the body of
      a final 200 is at the path; a final throwing `client.get` leaves the
      empty file; every other ending leaves no file there; other paths are
      untouched. */
  lemma DownloadEffect(files: map<string, Data>, path: string, url: string, net: Network, fuel: nat)
    ensures var last := FinalResponse(url, net, fuel);
            var after := Apply(files, path, Resolve(url, net, fuel));
            && after - {path} == files - {path}
            && (last.Reply? && last.statusCode == 200 ==> path in after && after[path] == Binary(last.body))
            && (last.Threw? ==> path in after && after[path] == Binary([]))
            && (!last.Threw? && !(last.Reply? && last.statusCode == 200) ==> path !in after)
  {
    ResolveFinal(url, net, fuel);
    ApplyEffect(files, path, Resolve(url, net, fuel));
  }

  /** Every failure except a throwing `client.get` leaves the destination
      absent; a success leaves exactly the final body there. */
  lemma ApplyOutcome(files: map<string, Data>, path: string, f: Fetch)
    ensures OutcomeOf(f) == Resolved ==> path in Apply(files, path, f) && Apply(files, path, f)[path] == Binary(f.body)
    ensures OutcomeOf(f).Rejected? && !f.LeftEmpty? ==> path !in Apply(files, path, f)
  {
  }

  /** Downloading the same thing twice leaves the disk as once: the
      destination is overwritten, never merged with earlier contents. */
  lemma ApplyIdempotent(files: map<string, Data>, path: string, f: Fetch)
    ensures Apply(Apply(files, path, f), path, f) == Apply(files, path, f)
  {
  }

  /** The paths `fs.mkdirSync(d, { recursive: true })` creates: `d` and
      every ancestor written before one of its '/' separators. */
  function DirectoryAndParents(d: string): (r: set<string>)
    ensures d in r
    ensures forall p :: p in r ==> StartsWith(d, p)
  {
    {d} + set i | 0 < i < |d| && d[i] == '/' :: d[..i]
  }

  /** The directories after `ensureDirectoryExistence(d)`: unchanged when
      `d` already exists (as a directory or a file), otherwise extended by
      `d` and its parents. */
  function WithDirectory(dirs: set<string>, files: map<string, Data>, d: string): (r: set<string>)
    ensures dirs <= r
    ensures d in r || d in files
  {
    if d in dirs || d in files then dirs else dirs + DirectoryAndParents(d)
  }

  lemma WithDirectoryIdempotent(dirs: set<string>, files: map<string, Data>, d: string)
    ensures WithDirectory(WithDirectory(dirs, files, d), files, d) == WithDirectory(dirs, files, d)
  {
  }

  /** The local disk that the helpers read and write. */
  class FileSystem {
    var files: map<string, Data>
    var dirs: set<string>

    constructor (files0: map<string, Data>, dirs0: set<string>)
      ensures files == files0 && dirs == dirs0
    {
      files := files0;
      dirs := dirs0;
    }

    /** `ensureDirectoryExistence(dirPath)` */
    method EnsureDirectoryExistence(d: string)
      modifies this
      ensures dirs == WithDirectory(old(dirs), files, d)
      ensures d in dirs || d in files
      ensures files == old(files)
    {
      if !(d in dirs || d in files) {
        dirs := dirs + DirectoryAndParents(d);
      }
    }

    /** `saveToFile(filename, content)`: the file holds `content` and
        nothing else; no other file changes. */
    method SaveToFile(name: string, content: string)
      modifies this
      ensures files == old(files)[name := Text(content)]
      ensures dirs == old(dirs)
    {
      files := files[name := Text(content)];
    }

    /** `downloadImage(url, filepath)`, with the promise's settlement as the
        returned outcome. A falsy URL resolves at once and touches nothing.
        Otherwise the write stream creates (or truncates) the file, the URL
        is normalised and the client chosen, and the response decides: a
        301/302 removes the file and follows the Location (or fails
        without one), any other status but 200 removes the file and fails,
        200 leaves exactly the body, a request error removes the file. */
    method DownloadImage(url: JsStr, filepath: string, net: Network, fuel: nat) returns (r: Outcome)
      modifies this
      ensures dirs == old(dirs)
      ensures !url.Truthy() ==> files == old(files) && r == Resolved
      ensures url.Truthy() ==> var f := Resolve(url.s, net, fuel);
                               files == Apply(old(files), filepath, f) && r == OutcomeOf(f)
      decreases fuel
    {
      if !url.Truthy() {
        return Resolved;
      }
      var u := Normalize(url.s);
      var client := ClientFor(u);
      files := files[filepath := Binary([])];
      var response := net(client, u);
      match response
      case Threw(m) =>
        r := Rejected(Thrown(m));
      case RequestError(m) =>
        files := files - {filepath};
        r := Rejected(Transport(m));
      case Reply(code, location, body) =>
        if code == 301 || code == 302 {
          files := files - {filepath};
          if !location.Truthy() {
            r := Rejected(NoLocation);
          } else if fuel == 0 {
            r := Rejected(RedirectFuelExhausted);
          } else {
            assert files - {filepath} == old(files) - {filepath};
            r := DownloadImage(location, filepath, net, fuel - 1);
          }
        } else if code != 200 {
          files := files - {filepath};
          r := Rejected(BadStatus(code));
        } else {
          files := files[filepath := Binary(body)];
          r := Resolved;
        }
    }
  }
}
