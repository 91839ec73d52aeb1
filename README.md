# Markdown content negotiation for evoleinik.com

The site's edge middleware (`middleware.js`) looks at each request's `Accept`
header. When the value contains `text/markdown`, it answers the request
itself: it fetches the Markdown file that belongs to the page and returns that
response. `/` is served from `/index.md`. `/posts/x` and `/posts/x/` are both
served from `/posts/x/index.md`. Every other request passes through to normal
routing.

This project models that hook as pure Dafny functions and proves what it does:

- `wrappers.dfy` defines `Option`, which stands for a header that may be absent.
- `strings.dfy` models `String.prototype.includes` as its first-index scan
  (`IndexOf`). It proves that the scan agrees with the plain definition of
  "is a substring of" (`Occurs`).
- `trailing_slash_regex.dfy` models the non-global replacement
  `s.replace(/\/?$/, repl)` as the regular-expression engine runs it. It tries
  a match at each start position in turn, with the greedy `\/?` backtracking to
  the empty match and `$` holding only at the end of input. Only the first
  match is replaced. `Replace` is proved to drop at most one trailing `/` and
  then append `repl`.
- `middleware.dfy` holds the URL record, the two possible outcomes
  (`PassThrough`, which is the hook's implicit `undefined`, and
  `FetchAt(url)`), the hook itself (`Handle`), and the lemmas about it.

The hook clones the request URL and assigns only `pathname`
(middleware.js:9-14), so the fetched URL keeps the scheme, host and query.
A header that is present but empty reads as `""`, like an absent one
(`|| ''`).

## Model

| member | source | states |
|---|---|---|
| Strings.IndexOf | middleware.js:8 | the scan returns the least index at or after `from` where the search string occurs, or None exactly when it occurs nowhere from there on |
| Strings.Includes | middleware.js:8 | `includes` is true exactly when the search string is a substring of the value (both directions) |
| TrailingSlashRegex.FirstMatch | middleware.js:14 | the search always finds a match, and it is the first start position at which `\/?$` matches |
| TrailingSlashRegex.MatchAt | middleware.js:14 | `\/?$` tried at one position matches only at the end of input or at a final `/`, and every match ends at the end of input |
| TrailingSlashRegex.DropOneTrailingSlash | middleware.js:14 | removes a trailing `/` when there is one and otherwise returns the input: a prefix one shorter, or the same length |
| TrailingSlashRegex.Replace | middleware.js:14 | replacing the first match of `\/?$` by `repl` equals dropping at most one trailing `/` and appending `repl` |
| Middleware.AcceptValue | middleware.js:6 | a present header value reads as itself (an empty one included), an absent header as `""` |
| Middleware.WantsMarkdown | middleware.js:8 | true exactly when `text/markdown` is a substring of the header value, case-sensitively and whatever surrounds it |
| Middleware.RewritePath | middleware.js:14 | a path ending in `/` loses that one `/` and gains `/index.md`; any other path gains `/index.md` |
| Middleware.TargetPath | middleware.js:11-15 | the root special case agrees with the general rule, so the new pathname is the general rewrite for every path |
| Middleware.Handle | middleware.js:5-19 | fetches exactly when `text/markdown` occurs in the header value (absent reads as empty); the fetched URL is the request URL with only the path rewritten |
| Middleware.RootRuleAgrees | middleware.js:11-14 | the general rule applied to `/` yields `/index.md`, the same as the special case |
| Middleware.AbsentHeaderPassesThrough | middleware.js:6-19 | a request without an `Accept` header passes through |
| Middleware.NoMarkdownPassesThrough | middleware.js:8-19 | a value in which `text/markdown` does not occur passes through and produces no URL |
| Middleware.MarkdownAnywhereFetches | middleware.js:8-17 | `text/markdown` surrounded by any other text still causes the fetch of the rewritten URL |
| Middleware.QualityZeroStillFetches | middleware.js:8 | parameters are not interpreted: `text/markdown;q=0` still fetches |
| Middleware.UpperCaseTypePassesThrough | middleware.js:8 | the match is case-sensitive: `TEXT/MARKDOWN` passes through |
| Middleware.OnlyPathChanges | middleware.js:9-17 | the fetched URL keeps the request's scheme, host and query |
| Middleware.RootMapsToIndex | middleware.js:11-12 | a Markdown request for `/` fetches exactly `/index.md` |
| Middleware.AppendsIndexFile | middleware.js:14 | any path not ending in `/` (the empty one included) maps to the path followed by `/index.md` |
| Middleware.TrailingSlashCollapses | middleware.js:14 | `q/` maps to `q/index.md`, as `q` does (when `q` does not end in `/`), and never to a path ending in `//index.md` |
| Middleware.RewriteShape | middleware.js:14 | every rewritten path ends in `/index.md`; it is 8 characters longer exactly when the input ends in `/`, and 9 longer otherwise |
| Middleware.StaysAbsolute | middleware.js:14 | a path starting with `/` still starts with `/` after the rewrite |
| Middleware.RewriteNotIdempotent | middleware.js:14 | rewriting a rewritten path appends a second `/index.md`, so the rewrite is not idempotent |
| Middleware.PostPathsExamples | middleware.js:13-14 | `/posts/abc` and `/posts/abc/` both map to `/posts/abc/index.md`; `/posts/foo.md` maps to `/posts/foo.md/index.md` |

## Left out

- The `fetch(url)` call and the response it returns (middleware.js:17). These are network I/O done by the host runtime. The model stops at the `FetchAt(url)` value.
- `async` and Promise semantics (middleware.js:5). The hook has a single step and no interleaving.
- The `config.matcher` patterns `/` and `/posts/:path*` (middleware.js:1-3). The hosting runtime applies them before it calls the hook, and the hook does not depend on them. The path lemmas hold for every path.
- WHATWG URL parsing and serialisation behind `new URL(...)` and the `pathname` setter (middleware.js:9, 12, 14). This covers percent-encoding and dot-segment normalisation. The URL is an already-parsed record, and the setter stores the new path as given.
- Case-insensitive lookup of the header name in `request.headers.get` (middleware.js:6). The model receives the header's value directly, as an optional string.
- `$` patterns in a replacement string. The only replacement string is `/index.md`, which has none, so `Replace` inserts the string literally.
- Unicode text as UTF-16 code units. Strings are sequences of Unicode scalar values, so lengths differ from JavaScript's on text outside the Basic Multilingual Plane, and lone surrogates cannot be written. The media type is ASCII and URL paths are percent-encoded ASCII, so the hook's behaviour is unaffected.
- The username, password and fragment of the URL. `host` stands for the host together with its port. The hook copies every component except the path, so those fields would be carried over unchanged as well.
