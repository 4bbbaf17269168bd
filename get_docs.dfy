/**
 * `get_docs(package, version, module)`: fetch the Hackage index page of a
 * package version, find the module's link on it, fetch the module page and
 * return its cleaned text, or return an error message at the first failure.
 */
module HackageDocs {
  import opened Wrappers
  import opened Text
  import opened Normalise
  import opened IndexResolver
  import opened PageExtractor

  /** A parsed HTML page, seen through what the pipeline asks of it. */
  datatype Page = Page(anchors: seq<Anchor>, strings: seq<TextNode>)

  /**
   * What `await client.get(url, timeout=30.0)` gives: a response (its status,
   * its parsed body, and the message `raise_for_status` raises for it), or
   * the message of the exception raised before any response arrived.
   */
  datatype Fetch =
    | Response(status: int, page: Page, statusError: string)
    | Failed(cause: string)

  /** `response.raise_for_status()` inside `try`: only a 2xx response gets through. */
  function CheckStatus(f: Fetch): (r: Result<Page>)
    ensures r.Success? <==> f.Response? && 200 <= f.status <= 299
    ensures r.Success? ==> r.value == f.page
    ensures r.Failure? ==> r.error == if f.Failed? then f.cause else f.statusError
  {
    match f
    case Failed(cause) => Failure(cause)
    case Response(status, page, statusError) =>
      if 200 <= status <= 299 then Success(page) else Failure(statusError)
  }

  function IndexFetchError(url: string, cause: string): string
  {
    "Error fetching package page from " + url + ": " + cause
  }

  function ModuleNotFound(moduleName: string): string
  {
    "Module '" + moduleName + "' not found on the package page."
  }

  function ModuleFetchError(url: string, cause: string): string
  {
    "Error fetching module page from " + url + ": " + cause
  }

  /**
   * The whole tool call. `fetch(n, url)` is the outcome of the request number
   * `n` (0 for the index page, 1 for the module page), so the same URL may
   * fare differently the second time; `resolve` stands for `urljoin` on a
   * non-empty reference; `requested` lists the URLs fetched, in order.
   */
  method GetDocs(package: string, version: string, moduleName: string,
                 fetch: (nat, string) -> Fetch, resolve: (string, string) -> string)
    returns (reply: string, requested: seq<string>)
    ensures 1 <= |requested| <= 2
    ensures requested[0] == "https://hackage.haskell.org/package/" + package + "-" + version
    ensures CheckStatus(fetch(0, requested[0])).Failure? ==>
      requested == [requested[0]] &&
      reply == "Error fetching package page from " + requested[0] + ": " +
               CheckStatus(fetch(0, requested[0])).error
    ensures CheckStatus(fetch(0, requested[0])).Success? ==>
      var anchors := CheckStatus(fetch(0, requested[0])).value.anchors;
      match FindModuleLink(anchors, moduleName)
      case None =>
        requested == [requested[0]] &&
        reply == "Module '" + moduleName + "' not found on the package page."
      case Some(k) =>
        |requested| == 2 && requested[1] == UrlJoin(requested[0], anchors[k].href, resolve) &&
        match CheckStatus(fetch(1, requested[1]))
        case Failure(cause) => reply == "Error fetching module page from " + requested[1] + ": " + cause
        case Success(page) => reply == ModulePageText(page.strings)
    ensures |requested| == 2 && CheckStatus(fetch(1, requested[1])).Success? ==> IsCleanText(reply)
  {
    var baseUrl := IndexUrl(package, version);
    requested := [baseUrl];
    assert requested[0] == baseUrl;
    var index := CheckStatus(fetch(0, baseUrl));
    if index.Failure? {
      return IndexFetchError(baseUrl, index.error), requested;
    }
    var anchors := index.value.anchors;
    var found := FindModuleLink(anchors, moduleName);
    if found.None? {
      return ModuleNotFound(moduleName), requested;
    }
    var moduleUrl := UrlJoin(baseUrl, anchors[found.value].href, resolve);
    requested := requested + [moduleUrl];
    assert requested[0] == baseUrl && requested[1] == moduleUrl;
    reply := ModulePageReply(moduleUrl, fetch(1, moduleUrl));
  }

  /** The second half of the call: the reply once the module page at `url` was requested. */
  method ModulePageReply(url: string, outcome: Fetch) returns (reply: string)
    ensures match CheckStatus(outcome)
      case Failure(cause) => reply == "Error fetching module page from " + url + ": " + cause
      case Success(page) => reply == ModulePageText(page.strings) && IsCleanText(reply)
  {
    var modulePage := CheckStatus(outcome);
    if modulePage.Failure? {
      return ModuleFetchError(url, modulePage.error);
    }
    reply := ExtractModuleText(modulePage.value.strings);
  }
}
