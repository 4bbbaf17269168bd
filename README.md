# Hackage documentation extractor, modelled in Dafny

The system is a one-tool MCP server. Its tool `get_docs(package, version, module)`
fetches the Hackage index page `https://hackage.haskell.org/package/{package}-{version}`.
It finds the first `<a>` whose text, stripped of surrounding whitespace, is exactly the
module name. It resolves that anchor's `href` against the index URL and fetches the
module page. From that page it deletes every `script` and `style` element and joins the
remaining strings with `"\n"`. It then strips every line, drops the empty ones and joins
the rest with `"\n"`. A failed request (a transport error or a status outside 2xx) and a
missing module are returned as error strings. Only the two requests sit inside `try`, so an
exception raised by `urljoin` or by the HTML parser escapes the tool call instead.

The model has these modules:

- `Text` (text.dfy): Python's `str.strip`, `str.splitlines` and `str.join`, with Python's
  whitespace set and line boundaries (`"\r\n"` counts as one boundary), and their lemmas.
- `Normalise` (normalise.dfy): the two list comprehensions that clean the text.
- `IndexResolver` (index_resolver.dfy): the index URL, the link-text filter given to
  `soup.find`, the first-match search, and `urljoin`.
- `PageExtractor` (page_extractor.dfy): the parsed module page as a `Soup` object. Its
  `DecomposeScriptAndStyle` loop removes script and style strings in place. `GetText`
  joins what is left.
- `HackageDocs` (get_docs.dfy): `GetDocs`, the step-by-step procedure with its early
  returns. The outcome of each request comes from a parameter `fetch(n, url)`, which stands
  for the web: `n` is 0 for the index page and 1 for the module page, so a repeated request
  for the same URL can fare differently. `GetDocs` also returns the list of URLs it
  requested, so it is visible when no second request happens.

Behaviour taken from the code rather than from the design notes:

- A matching anchor without an `href` does not raise an error. `urljoin(base, None)` and
  `urljoin(base, "")` return `base`, so the index page is requested a second time
  (`UrlJoin`). If that second request succeeds, its cleaned text is returned as if it were
  the module's documentation. If it fails, the reply is the module-page error for the index
  URL.
- The module URL is not checked for being absolute before it is fetched.
- Empty or malformed arguments are not rejected. With an empty module name, an anchor
  whose text is only whitespace matches, because the filter `s and s.strip() == module`
  only rejects `None` and `""`.
- A response fails the status check unless its status is in 200..299, as httpx's
  `raise_for_status` decides (`CheckStatus`).

## Model

| member | source | states |
|---|---|---|
| `HackageDocs.GetDocs` | main.py:11-67 | The first URL requested is `https://hackage.haskell.org/package/` + package + `-` + version. If the first request fails, the reply is `Error fetching package page from <url>: <cause>` and nothing else is requested. If no anchor matches, the reply is `Module '<module>' not found on the package page.` and nothing else is requested. Otherwise the second URL is the join of the index URL and the first matching anchor's href. The outcome of the second request decides the rest: on failure the reply is `Error fetching module page from <url>: <cause>`; on success it is the cleaned module text, and that text is clean. |
| `HackageDocs.ModulePageReply` | main.py:50-67 | After the module page was requested: a failed outcome gives `Error fetching module page from <url>: <cause>`, a successful one the cleaned text of the page, which is clean. |
| `HackageDocs.CheckStatus` | main.py:32-35 | `raise_for_status` inside `try`: the page gets through exactly when a response arrived with a status in 200..299. Otherwise the error is the exception's text, or the status error's text. |
| `IndexResolver.IndexUrl` | main.py:28 | The index URL is the Hackage package prefix, then the package verbatim, then `-`, then the version verbatim. |
| `IndexResolver.IndexUrlRoundTrip` | main.py:28 | The index URL holds the package and the version verbatim, with nothing encoded: for a version without `-`, both are read back from the URL. |
| `IndexResolver.LinkTextMatchesIff` | main.py:42 | The filter `s and s.strip() == module` in full: `None` and `""` never match. Any other link text matches exactly when the module name is trimmed and the text is that name with whitespace before and after it. |
| `IndexResolver.FindModuleLink` | main.py:42-44 | The result is None exactly when no anchor's link text matches. Otherwise it is the index of a matching anchor, and no earlier anchor matches, so the first match in document order wins. |
| `IndexResolver.ExtraTextNeverMatches` | main.py:42 | Link text that has a non-whitespace character besides the module name never matches it. |
| `IndexResolver.PaddedLinkTextMatches` | main.py:42 | A trimmed module name with any whitespace around it always matches. |
| `IndexResolver.MatchingLinkTextIsPadded` | main.py:42 | Conversely, matching link text is the module name with whitespace on both sides, and the name is trimmed. |
| `IndexResolver.UrlJoin` | main.py:47-48 | `urljoin(base, href)` is `base` itself when the href is missing or empty. Any other href is resolved against `base`. |
| `PageExtractor.Visible` | main.py:60-61 | What survives the decomposition is no longer than the page, and every survivor is a string of the page outside script and style. |
| `PageExtractor.ExtractModuleText` | main.py:59-65 | Parsing, decomposing, `get_text("\n")` and line clean-up, done step by step on a `Soup`, give `ModulePageText` of the page, and that text is clean. |
| `PageExtractor.Soup.GetText` | main.py:63 | `get_text(separator=...)` of an empty page is empty. Every character of the text is a separator character or comes from one of the page's strings. |
| `PageExtractor.Soup.DecomposeScriptAndStyle` | main.py:60-61 | After the loop, the page's strings are exactly the visible strings of the original page, in place. |
| `PageExtractor.VisibleCounts` | main.py:60-61 | Each string inside a script or style element is removed. Every other string is kept as many times as it occurs. |
| `PageExtractor.VisibleAppend` | main.py:60-61 | The removal keeps document order. |
| `PageExtractor.OutputComesFromVisibleText` | main.py:59-65 | Every output character other than the `"\n"` between lines comes from a string outside script and style. So text that exists only in script or style never reaches the output. |
| `Text.Strip` | main.py:64 | `line.strip()` returns a trimmed string. The result is empty exactly when the line is all whitespace. |
| `Text.StripPadded` | main.py:64 | Strip removes exactly the whitespace around a trimmed string. |
| `Text.StripTrimmed` | main.py:64 | Stripping a trimmed string changes nothing. |
| `Text.StripKeepsNonSpace` | main.py:64 | Strip removes only whitespace. Every other character survives, in order. |
| `Text.SplitLines` | main.py:64 | `text.splitlines()` gives lines without line boundaries. It gives no lines exactly when the text is empty. |
| `Text.SplitLinesChars` | main.py:64 | Every character of a line comes from the text that was split. |
| `Text.SplitJoinRoundTrip` | main.py:64-65 | Splitting the `"\n"`-join of non-empty single lines gives those lines back. |
| `Text.JoinCleanLines` | main.py:65 | Non-empty, trimmed single lines joined with `"\n"` make clean text. |
| `Text.CleanTextLinesTrimmed` | main.py:64-65 | Clean text splits into non-empty, trimmed lines. |
| `Text.JoinSplitLines` | main.py:64-65 | Text whose only line boundary is `"\n"`, and which does not end with one, is the `"\n"`-join of its own lines. |
| `Text.CleanTextJoinsBack` | main.py:64-65 | The lines of a clean text join back into that text. |
| `Text.JoinLength` | main.py:63-65 | `sep.join(parts)` of at least one part is as long as the parts together plus one separator between each two of them. |
| `Text.JoinChars` | main.py:63 | Every character of a joined string comes from the separator or from one of the parts. |
| `Normalise.DropEmpty` | main.py:65 | `[line for line in lines if line]` keeps no empty line. It keeps every non-empty line as often as it occurs, in the original order. |
| `Normalise.CleanLinesAreClean` | main.py:64-65 | Every line that survives is non-empty, trimmed and has no line boundary. |
| `Normalise.CleanText` | main.py:63-65 | The cleaned text is clean. It has no blank lines and no `"\n\n"`, and it does not start or end with `"\n"` or other whitespace. |
| `Normalise.CleanTextLines` | main.py:64-65 | The output lines are exactly the non-empty stripped input lines, in order. |
| `Normalise.LineKeptIffNotBlank` | main.py:64-65 | An input line appears (stripped) in the output exactly when it has a non-whitespace character. |
| `Normalise.CleanTextFixedPoints` | main.py:64-65 | Cleaning leaves a text unchanged exactly when the text is already clean. |
| `Normalise.CleanTextIdempotent` | main.py:64-65 | Cleaning cleaned text changes nothing. |
| `Normalise.CleanTextChars` | main.py:64-65 | Cleaning adds no character except the `"\n"` between lines. |

## Left out

- Networking: httpx, the 30-second timeout, `async`/`await` and the client's lifetime (main.py:31-34, 51-54). The outcome of each GET is a value from the `fetch` parameter.
- The text of exceptions and of `raise_for_status` errors (main.py:36, 56). It is kept as an opaque string.
- HTML parsing by BeautifulSoup (main.py:39, 59). An index page is modelled as its anchors in document order. Each anchor has its `.string` (None unless the anchor holds a single string) and its `href`. A module page is modelled as the strings `get_text` visits, each with the names of its enclosing elements. Comments, doctypes and how `.string` is computed for nested tags are not modelled.
- `DecomposeScriptAndStyle` removes strings one at a time rather than whole element subtrees. The result is the same: a string goes exactly when a script or style element encloses it.
- `urljoin` for a non-empty reference, that is, resolution under section 5.2 of RFC 3986 (main.py:48). This is the `resolve` parameter.
- Decoding of the response body into `response.text`. Pages arrive already parsed.
- Exceptions that escape `get_docs` because they are raised outside `try`: `urljoin` raises `ValueError` for an href such as `http://[x` (main.py:48), and `BeautifulSoup(..., "html.parser")` can raise on markup the parser rejects (main.py:39, 59). `resolve` is total and a response always carries a parsed page, so the model has no escaping outcome.
- The FastMCP server, tool registration and the stdio entry point (main.py:5-10, 69-71).
