/**
 * The content-negotiation middleware: when the request's `Accept` header
 * mentions `text/markdown`, the request is answered by fetching the Markdown
 * file that sits next to the page (`/` becomes `/index.md`, `/posts/x` and
 * `/posts/x/` become `/posts/x/index.md`); otherwise the request passes
 * through to normal routing.
 */
module Middleware {
  import opened Wrappers
  import Strings
  import TrailingSlashRegex

  /**
   * An already-parsed request URL; the middleware changes only `path`.
   * `host` is the URL's host including any port; username, password and
   * fragment are not represented.
   */
  datatype Url = Url(scheme: string, host: string, path: string, query: string)

  /** No result (pass-through), or the response of fetching `target`. */
  datatype Action = PassThrough | FetchAt(target: Url)

  const MarkdownType: string := "text/markdown"
  const IndexFile: string := "/index.md"
  const Root: string := "/"

  /**
   * `request.headers.get('accept') || ''`: `get` yields null for an absent
   * header, and `||` replaces every falsy operand (null or "") by "". A
   * present value therefore reads as itself, and an absent one as "".
   */
  function AcceptValue(accept: Option<string>): (v: string)
    ensures accept.Some? ==> v == accept.value
    ensures accept.None? ==> v == ""
  {
    match accept
    case None => ""
    case Some(h) => if h == "" then "" else h
  }

  /** `accept.includes('text/markdown')`: a case-sensitive substring test. */
  predicate WantsMarkdown(accept: Option<string>): (b: bool)
    ensures b <==> Strings.Occurs(AcceptValue(accept), MarkdownType)
  {
    Strings.Includes(AcceptValue(accept), MarkdownType)
  }

  /** `pathname.replace(/\/?$/, '/index.md')`. */
  function RewritePath(p: string): (r: string)
    ensures Strings.EndsWith(p, "/") ==> r == p[..|p| - 1] + IndexFile
    ensures !Strings.EndsWith(p, "/") ==> r == p + IndexFile
  {
    TrailingSlashRegex.Replace(p, IndexFile)
  }

  /** The new pathname: the root is special-cased, every other path is rewritten. */
  function TargetPath(p: string): (r: string)
    ensures r == RewritePath(p)
  {
    if p == Root then
      RootRuleAgrees();
      IndexFile
    else
      RewritePath(p)
  }

  /**
   * The middleware: pass through unless the header asks for Markdown; then
   * fetch a copy of the URL whose pathname alone is replaced.
   */
  function Handle(accept: Option<string>, u: Url): (r: Action)
    ensures r.FetchAt? <==> Strings.Occurs(AcceptValue(accept), MarkdownType)
    ensures r.FetchAt? ==> r.target == u.(path := RewritePath(u.path))
  {
    if WantsMarkdown(accept) then
      FetchAt(u.(path := TargetPath(u.path)))
    else
      PassThrough
  }

  /** The general rule applied to `/` gives `/index.md`, as the special case does. */
  lemma RootRuleAgrees()
    ensures RewritePath(Root) == IndexFile
  {
  }

  /** A request without an `Accept` header always passes through. */
  lemma AbsentHeaderPassesThrough(u: Url)
    ensures Handle(None, u) == PassThrough
  {
  }

  /** An `Accept` value without the substring `text/markdown` passes through. */
  lemma NoMarkdownPassesThrough(v: string, u: Url)
    requires forall i :: !Strings.OccursAt(v, MarkdownType, i)
    ensures Handle(Some(v), u) == PassThrough
  {
  }

  /**
   * `text/markdown` anywhere in the value triggers the fetch, whatever media
   * types or parameters surround it.
   */
  lemma MarkdownAnywhereFetches(before: string, after: string, u: Url)
    ensures Handle(Some(before + MarkdownType + after), u) == FetchAt(u.(path := RewritePath(u.path)))
  {
    var v := before + MarkdownType + after;
    assert v[|before|..|before| + |MarkdownType|] == MarkdownType;
    assert Strings.OccursAt(v, MarkdownType, |before|);
  }

  /** Parameters are not interpreted: even `q=0`, which refuses Markdown, fetches it. */
  lemma QualityZeroStillFetches(u: Url)
    ensures Handle(Some("text/markdown;q=0"), u).FetchAt?
  {
  }

  /** The test is case-sensitive: an upper-case media type passes through. */
  lemma UpperCaseTypePassesThrough(u: Url)
    ensures Handle(Some("TEXT/MARKDOWN"), u) == PassThrough
  {
    var v := "TEXT/MARKDOWN";
    assert v[0..|MarkdownType|][0] != MarkdownType[0];
  }

  /** Only the path changes; scheme, host and query are carried over. */
  lemma OnlyPathChanges(accept: Option<string>, u: Url)
    requires Handle(accept, u).FetchAt?
    ensures Handle(accept, u).target.scheme == u.scheme
    ensures Handle(accept, u).target.host == u.host
    ensures Handle(accept, u).target.query == u.query
  {
  }

  /** The root page `/` is served from `/index.md`. */
  lemma RootMapsToIndex(v: string, u: Url)
    requires Strings.Occurs(v, MarkdownType)
    requires u.path == Root
    ensures Handle(Some(v), u) == FetchAt(u.(path := IndexFile))
  {
  }

  /** A path without a trailing `/` gets `/index.md` appended. */
  lemma AppendsIndexFile(p: string)
    requires !Strings.EndsWith(p, "/")
    ensures RewritePath(p) == p + IndexFile
  {
  }

  /**
   * A single trailing `/` is absorbed: `q/` and `q` (for `q` not ending in
   * `/`) rewrite alike, and never to a path ending in `//index.md`.
   */
  lemma {:induction false} TrailingSlashCollapses(q: string)
    requires !Strings.EndsWith(q, "/")
    ensures RewritePath(q + "/") == q + IndexFile
    ensures RewritePath(q + "/") == RewritePath(q)
    ensures !Strings.EndsWith(RewritePath(q + "/"), "//index.md")
  {
    var p := q + "/";
    assert Strings.EndsWith(p, "/");
    assert p[..|p| - 1] == q;
    var r := q + IndexFile;
    if |q| > 0 {
      assert q[|q| - 1..] == [q[|q| - 1]];
      assert r[|r| - 10..][0] == q[|q| - 1];
    }
  }

  /** Every rewritten path ends in `/index.md` and is 8 or 9 characters longer. */
  lemma RewriteShape(p: string)
    ensures Strings.EndsWith(RewritePath(p), IndexFile)
    ensures |RewritePath(p)| == |p| + 8 <==> Strings.EndsWith(p, "/")
    ensures |RewritePath(p)| == |p| + 9 <==> !Strings.EndsWith(p, "/")
  {
  }

  /** An absolute path stays absolute. */
  lemma StaysAbsolute(p: string)
    requires |p| > 0 && p[0] == '/'
    ensures RewritePath(p)[0] == '/'
  {
  }

  /**
   * The rewrite is not idempotent: a rewritten path does not end in `/`, so
   * rewriting it again appends a second `/index.md`.
   */
  lemma RewriteNotIdempotent(p: string)
    ensures RewritePath(RewritePath(p)) == RewritePath(p) + IndexFile
    ensures RewritePath(RewritePath(p)) != RewritePath(p)
  {
  }

  /** Worked cases: nested posts with and without the slash, and a `.md` path. */
  lemma PostPathsExamples()
    ensures RewritePath("/posts/abc") == "/posts/abc/index.md"
    ensures RewritePath("/posts/abc/") == "/posts/abc/index.md"
    ensures RewritePath("/posts/foo.md") == "/posts/foo.md/index.md"
  {
    assert "/posts/abc/"[..10] == "/posts/abc";
    assert "/posts/foo.md"[12] == 'd';
  }
}
