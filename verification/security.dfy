/** utils/security.py: the security headers added to every response, with
    the Content-Security-Policy value serialised from an ordered
    directive-to-sources policy, and the test-only bypass of the HTML
    sanitiser. */
module Security {
  import opened Wrappers
  import Text
  import Assoc

  /* ---------------------------------------------- Content-Security-Policy */

  /** One policy entry: a directive name and its allowed sources. */
  datatype Directive = Directive(name: string, sources: seq<string>)

  /* The allowed sources of each directive of `add_security_headers`. */

  const DefaultSrc: seq<string> := ["'self'"]

  const ScriptSrc: seq<string> := [
    "'self'",
    "https://code.jquery.com",
    "https://cdn.jsdelivr.net",
    "https://pagead2.googlesyndication.com",
    "cdn.datatables.net",
    "cdnjs.cloudflare.com",
    "www.googletagmanager.com",
    "partner.googleadservices.com",
    "tpc.googlesyndication.com"
  ]

  const StyleSrc: seq<string> := [
    "'self'",
    "https://cdn.jsdelivr.net",
    "cdn.datatables.net",
    "fonts.googleapis.com"
  ]

  const ImgSrc: seq<string> := [
    "'self'",
    "data:",
    "https://pagead2.googlesyndication.com",
    "https://saddlebagexchange.com"
  ]

  const FontSrc: seq<string> := ["'self'", "fonts.gstatic.com"]

  const ConnectSrc: seq<string> := [
    "'self'",
    "pagead2.googlesyndication.com",
    "www.google-analytics.com"
  ]

  const FrameSrc: seq<string> := [
    "'self'",
    "https://www.youtube.com",
    "googleads.g.doubleclick.net",
    "tpc.googlesyndication.com",
    "www.google.com"
  ]

  /** The policy of `add_security_headers`, in declaration order: seven
      directives under distinct names. */
  function CspPolicy(): (r: seq<Directive>)
    ensures |r| == 7
    ensures forall i, j :: 0 <= i < j < |r| ==> r[i].name != r[j].name
  {
    [
      Directive("default-src", DefaultSrc),
      Directive("script-src", ScriptSrc),
      Directive("style-src", StyleSrc),
      Directive("img-src", ImgSrc),
      Directive("font-src", FontSrc),
      Directive("connect-src", ConnectSrc),
      Directive("frame-src", FrameSrc)
    ]
  }

  /** `f"{key} {' '.join(value)}"`. */
  function RenderDirective(d: Directive): (r: string)
    ensures |d.name| < |r| && r[..|d.name|] == d.name && r[|d.name|] == ' '
  {
    d.name + " " + Text.Join(d.sources, " ")
  }

  function Rendered(p: seq<Directive>): (r: seq<string>)
    ensures |r| == |p|
    ensures forall i :: 0 <= i < |p| ==> r[i] == RenderDirective(p[i])
  {
    seq(|p|, i requires 0 <= i < |p| => RenderDirective(p[i]))
  }

  /** `"; ".join(...)` of the rendered directives: the header value. */
  function SerializeCsp(p: seq<Directive>): (r: string)
    ensures r == "" <==> |p| == 0
    ensures |p| > 0 ==> |RenderDirective(p[0])| <= |r| && r[..|RenderDirective(p[0])|] == RenderDirective(p[0])
  {
    Text.Join(Rendered(p), "; ")
  }

  /** A name or source that cannot be confused with either separator. */
  predicate CleanToken(s: string) {
    forall i :: 0 <= i < |s| ==> s[i] != ' ' && s[i] != ';'
  }

  predicate WellFormedDirective(d: Directive) {
    && CleanToken(d.name)
    && |d.sources| > 0
    && forall j :: 0 <= j < |d.sources| ==> CleanToken(d.sources[j])
  }

  predicate WellFormedPolicy(p: seq<Directive>) {
    |p| > 0 && forall i :: 0 <= i < |p| ==> WellFormedDirective(p[i])
  }

  /** Reads one directive back: the name up to the first space, then the
      sources separated by spaces. */
  function ParseDirective(s: string): Option<Directive> {
    match Text.IndexOf(s, " ")
    case None => None
    case Some(i) => Some(Directive(s[..i], Text.Split(s[i + 1..], " ")))
  }

  function ParseDirectives(parts: seq<string>): (r: Option<seq<Directive>>)
    ensures r.Some? ==> |r.value| == |parts|
    decreases |parts|
  {
    if |parts| == 0 then Some([])
    else
      var d :- ParseDirective(parts[0]);
      var rest :- ParseDirectives(parts[1..]);
      Some([d] + rest)
  }

  /** Reads a header value back into a policy: split on `"; "`, then each
      piece on its first space and the remainder on spaces. */
  function ParseCsp(h: string): Option<seq<Directive>> {
    ParseDirectives(Text.Split(h, "; "))
  }

  /** A rendered well-formed directive contains no `;`. */
  lemma RenderedClean(d: Directive)
    requires WellFormedDirective(d)
    ensures ';' !in RenderDirective(d)
    ensures |RenderDirective(d)| > 0
  {
    Text.JoinAbsent(d.sources, " ", ';');
  }

  lemma ParseRenderDirective(d: Directive)
    requires WellFormedDirective(d)
    ensures ParseDirective(RenderDirective(d)) == Some(d)
  {
    var j := Text.Join(d.sources, " ");
    var s := RenderDirective(d);
    Text.IndexOfAfterPrefix(d.name, " ", j);
    assert s[..|d.name|] == d.name;
    assert s[|d.name| + 1..] == j;
    Text.SplitJoin(d.sources, " ");
  }

  lemma {:induction false} ParseRendered(p: seq<Directive>)
    requires forall i :: 0 <= i < |p| ==> WellFormedDirective(p[i])
    ensures ParseDirectives(Rendered(p)) == Some(p)
    decreases |p|
  {
    if |p| > 0 {
      ParseRenderDirective(p[0]);
      assert Rendered(p)[1..] == Rendered(p[1..]);
      ParseRendered(p[1..]);
      assert p == [p[0]] + p[1..];
    }
  }

  /** For a well-formed policy, cutting the value at each `"; "` gives the
      rendered directives back, one piece each, in policy order. */
  lemma CspPieces(p: seq<Directive>)
    requires WellFormedPolicy(p)
    ensures Text.Split(SerializeCsp(p), "; ") == Rendered(p)
  {
    forall i | 0 <= i < |p|
      ensures ';' !in Rendered(p)[i]
    {
      RenderedClean(p[i]);
    }
    Text.SplitJoin(Rendered(p), "; ");
  }

  /** Round trip: when no name or source contains a space or a `;`, the
      header value gives back the policy it was made from, directive order
      included. */
  lemma CspRoundTrip(p: seq<Directive>)
    requires WellFormedPolicy(p)
    ensures ParseCsp(SerializeCsp(p)) == Some(p)
  {
    CspPieces(p);
    ParseRendered(p);
  }

  /** With `n` directives the value holds exactly `n - 1` separators and ends
      with the last directive, not with a separator. */
  lemma CspSeparators(p: seq<Directive>)
    requires WellFormedPolicy(p)
    ensures Text.Count(SerializeCsp(p), ';') == |p| - 1
    ensures var h := SerializeCsp(p); var last := RenderDirective(p[|p| - 1]);
      |last| <= |h| && h[|h| - |last|..] == last && h[|h| - 1] != ';'
  {
    var h := SerializeCsp(p);
    forall i | 0 <= i < |p|
      ensures ';' !in Rendered(p)[i]
    {
      RenderedClean(p[i]);
    }
    Text.JoinCount(Rendered(p), "; ", ';');
    Text.JoinEndsWithLast(Rendered(p), "; ");
    var last := RenderDirective(p[|p| - 1]);
    RenderedClean(p[|p| - 1]);
    assert h[|h| - 1] == last[|last| - 1];
  }

  /** The fixed policy's value starts with its first directive, `default-src`,
      and ends with its last, `frame-src`. */
  lemma CspHeaderOrder()
    ensures var h := SerializeCsp(CspPolicy());
      && CspPolicy()[0].name == "default-src"
      && CspPolicy()[|CspPolicy()| - 1].name == "frame-src"
      && |RenderDirective(CspPolicy()[0]) + "; "| <= |h|
      && h[..|RenderDirective(CspPolicy()[0]) + "; "|] == RenderDirective(CspPolicy()[0]) + "; "
      && var last := RenderDirective(CspPolicy()[|CspPolicy()| - 1]);
         |last| <= |h| && h[|h| - |last|..] == last
  {
    var p := CspPolicy();
    Text.JoinStartsWithFirst(Rendered(p), "; ");
    Text.JoinEndsWithLast(Rendered(p), "; ");
  }

  /* Whether a literal holds a separator costs the verifier more the longer
     the literal is, so the fixed policy is checked a few sources at a time. */

  /** Sources `lo` up to `hi` of `xs` hold no separator. */
  predicate CleanRange(xs: seq<string>, lo: nat, hi: nat)
    requires hi <= |xs|
  {
    forall j :: lo <= j < hi ==> CleanToken(xs[j])
  }

  lemma ScriptSrcHeadClean()
    ensures CleanRange(ScriptSrc, 0, 5)
  {
    assert CleanToken(ScriptSrc[0]);
    assert CleanToken(ScriptSrc[1]);
    assert CleanToken(ScriptSrc[2]);
    assert CleanToken(ScriptSrc[3]);
    assert CleanToken(ScriptSrc[4]);
  }

  lemma ScriptSrcTailClean()
    ensures CleanRange(ScriptSrc, 5, 9)
  {
    assert CleanToken(ScriptSrc[5]);
    assert CleanToken(ScriptSrc[6]);
    assert CleanToken(ScriptSrc[7]);
    assert CleanToken(ScriptSrc[8]);
  }

  lemma StyleSrcClean()
    ensures CleanRange(StyleSrc, 0, 4)
  {
    assert CleanToken(StyleSrc[0]);
    assert CleanToken(StyleSrc[1]);
    assert CleanToken(StyleSrc[2]);
    assert CleanToken(StyleSrc[3]);
  }

  lemma ImgSrcClean()
    ensures CleanRange(ImgSrc, 0, 4)
  {
    assert CleanToken(ImgSrc[0]);
    assert CleanToken(ImgSrc[1]);
    assert CleanToken(ImgSrc[2]);
    assert CleanToken(ImgSrc[3]);
  }

  lemma FontAndConnectSrcClean()
    ensures CleanRange(FontSrc, 0, 2) && CleanRange(ConnectSrc, 0, 3)
  {
    assert CleanToken(FontSrc[0]);
    assert CleanToken(FontSrc[1]);
    assert CleanToken(ConnectSrc[0]);
    assert CleanToken(ConnectSrc[1]);
    assert CleanToken(ConnectSrc[2]);
  }

  lemma FrameSrcClean()
    ensures CleanRange(FrameSrc, 0, 5)
  {
    assert CleanToken(FrameSrc[0]);
    assert CleanToken(FrameSrc[1]);
    assert CleanToken(FrameSrc[2]);
    assert CleanToken(FrameSrc[3]);
    assert CleanToken(FrameSrc[4]);
  }

  lemma DirectiveNamesClean()
    ensures CleanToken("default-src") && CleanToken("script-src") && CleanToken("style-src")
    ensures CleanToken("img-src") && CleanToken("font-src") && CleanToken("connect-src")
    ensures CleanToken("frame-src")
  {
  }

  /** The fixed policy is well formed: no name or source holds a separator,
      and every directive has a source. */
  lemma FixedPolicyWellFormed()
    ensures WellFormedPolicy(CspPolicy())
  {
    var p := CspPolicy();
    DirectiveNamesClean();
    assert CleanToken(DefaultSrc[0]);
    assert WellFormedDirective(p[0]);
    ScriptSrcHeadClean();
    ScriptSrcTailClean();
    assert WellFormedDirective(p[1]);
    StyleSrcClean();
    assert WellFormedDirective(p[2]);
    ImgSrcClean();
    assert WellFormedDirective(p[3]);
    FontAndConnectSrcClean();
    assert WellFormedDirective(p[4]);
    assert WellFormedDirective(p[5]);
    FrameSrcClean();
    assert WellFormedDirective(p[6]);
  }

  /** The header value the program actually sends reads back to its policy
      and separates the seven directives with six `;`. */
  lemma FixedPolicyHeader()
    ensures ParseCsp(SerializeCsp(CspPolicy())) == Some(CspPolicy())
    ensures Text.Count(SerializeCsp(CspPolicy()), ';') == 6
  {
    FixedPolicyWellFormed();
    CspRoundTrip(CspPolicy());
    CspSeparators(CspPolicy());
  }

  /* ------------------------------------------------------ response headers */

  /** A response as far as the middleware sees it: status, body and header
      map. */
  datatype Response = Response(status: int, body: string, headers: map<string, string>)

  /** The ten header names the middleware sets, in the order it sets them.
      The longest names are written as two pieces joined with `+`, which the
      verifier handles more cheaply than one long literal. */
  const SecurityHeaderNames: seq<string> := [
    "Content-Security-Policy",
    "X-Frame-Options",
    "X-Content-Type-Options",
    "Strict-Transport-Security",
    "Referrer-Policy",
    "Cross-Origin-" + "Resource-Policy",
    "Cross-Origin-" + "Opener-Policy",
    "X-XSS-Protection",
    "Content-Security-Policy" + "-Report-Only",
    "Permissions-Policy"
  ]

  /** The value assigned to each of `SecurityHeaderNames`, given the
      Content-Security-Policy value. */
  function SecurityHeaderValues(csp: string): (r: seq<string>)
    ensures |r| == |SecurityHeaderNames|
    ensures r[0] == csp
  {
    // The longer values are written as short pieces joined with `+`: the
    // verifier's cost for a string literal grows faster than its length.
    [
      csp,
      "same-origin",
      "nosniff",
      "max-age=31536000; " + "includeSubDomains",
      "no-referrer-" + "when-downgrade",
      "same-origin",
      "same-origin",
      "0",
      "default-src 'self'; "
        + "script-src 'self' "
        + "https://cdn.example.com; "
        + "style-src 'self' "
        + "https://cdn.example.com; "
        + "img-src 'self' data: "
        + "https://cdn.example.com;",
      "geolocation=(), "
        + "camera=(), "
        + "microphone=(), "
        + "fullscreen=(), "
        + "autoplay=(), "
        + "payment=(), "
        + "encrypted-media=(), "
        + "midi=(), "
        + "accelerometer=(), "
        + "gyroscope=(), "
        + "magnetometer=()"
    ]
  }

  /** The assignments of `add_security_headers`, in program order. */
  function HeaderAssignments(csp: string): (r: seq<(string, string)>)
    ensures Assoc.Keys(r) == SecurityHeaderNames
  {
    var values := SecurityHeaderValues(csp);
    seq(|SecurityHeaderNames|, i requires 0 <= i < |SecurityHeaderNames| => (SecurityHeaderNames[i], values[i]))
  }

  lemma SecurityHeaderNamesDistinct()
    ensures Text.Distinct(SecurityHeaderNames)
  {
  }

  /** Performs `headers[name] = value` for each assignment in turn. */
  function SetHeaders(h: map<string, string>, assignments: seq<(string, string)>): (r: map<string, string>)
    ensures forall k :: k in r <==> k in h || k in Assoc.Keys(assignments)
    ensures forall k :: k in r ==>
      r[k] == (if Assoc.Lookup(assignments, k).Some? then Assoc.Lookup(assignments, k).value else h[k])
    decreases |assignments|
  {
    if |assignments| == 0 then h
    else
      var n := |assignments| - 1;
      var init := assignments[..n];
      assert Assoc.Keys(assignments) == Assoc.Keys(init) + [assignments[n].0];
      SetHeaders(h, init)[assignments[n].0 := assignments[n].1]
  }

  /** Without repeated names, every assigned name ends up holding its own
      value. */
  lemma SetHeadersDistinct(h: map<string, string>, assignments: seq<(string, string)>)
    requires Assoc.DistinctKeys(assignments)
    ensures forall i :: 0 <= i < |assignments| ==>
      assignments[i].0 in SetHeaders(h, assignments)
      && SetHeaders(h, assignments)[assignments[i].0] == assignments[i].1
  {
    forall i | 0 <= i < |assignments|
      ensures SetHeaders(h, assignments)[assignments[i].0] == assignments[i].1
    {
      Assoc.LookupDistinct(assignments, i);
    }
  }

  /** Applying the same assignments a second time changes nothing. */
  lemma SetHeadersIdempotent(h: map<string, string>, assignments: seq<(string, string)>)
    ensures SetHeaders(SetHeaders(h, assignments), assignments) == SetHeaders(h, assignments)
  {
    var once := SetHeaders(h, assignments);
    var twice := SetHeaders(once, assignments);
    forall k | k in twice
      ensures k in once && twice[k] == once[k]
    {
      var l := Assoc.Lookup(assignments, k);
      if l.Some? {
        assert twice[k] == l.value == once[k];
      } else {
        assert twice[k] == once[k];
      }
    }
    assert twice.Keys == once.Keys;
  }

  /** `add_security_headers(response)`, with the Content-Security-Policy
      value serialised from `policy`; the source always passes `CspPolicy()`.
      Every one of the ten headers holds its fixed value afterwards, and the
      status, the body and every other header are as they were. */
  function AddSecurityHeaders(resp: Response, policy: seq<Directive>): (r: Response)
    ensures r.status == resp.status && r.body == resp.body
    ensures forall k :: k in r.headers <==> k in resp.headers || k in SecurityHeaderNames
    ensures forall i :: 0 <= i < |SecurityHeaderNames| ==>
      r.headers[SecurityHeaderNames[i]] == SecurityHeaderValues(SerializeCsp(policy))[i]
    ensures forall k :: k in resp.headers && k !in SecurityHeaderNames ==> r.headers[k] == resp.headers[k]
  {
    var a := HeaderAssignments(SerializeCsp(policy));
    SecurityHeaderNamesDistinct();
    SetHeadersDistinct(resp.headers, a);
    resp.(headers := SetHeaders(resp.headers, a))
  }

  /** The Content-Security-Policy header carries the serialised policy. */
  lemma CspHeaderValue(resp: Response, policy: seq<Directive>)
    ensures var h := AddSecurityHeaders(resp, policy).headers;
      "Content-Security-Policy" in h && h["Content-Security-Policy"] == SerializeCsp(policy)
  {
    assert SecurityHeaderNames[0] == "Content-Security-Policy";
  }

  /** The frame, content-type and XSS headers hold their fixed values,
      whatever the response carried before. */
  lemma NamedHeaderValues(resp: Response, policy: seq<Directive>)
    ensures var h := AddSecurityHeaders(resp, policy).headers;
      && "X-Frame-Options" in h && h["X-Frame-Options"] == "same-origin"
      && "X-Content-Type-Options" in h && h["X-Content-Type-Options"] == "nosniff"
      && "X-XSS-Protection" in h && h["X-XSS-Protection"] == "0"
  {
    assert SecurityHeaderNames[1] == "X-Frame-Options";
    assert SecurityHeaderNames[2] == "X-Content-Type-Options";
    assert SecurityHeaderNames[7] == "X-XSS-Protection";
  }

  /** Adding the headers a second time changes nothing. */
  lemma AddSecurityHeadersIdempotent(resp: Response, policy: seq<Directive>)
    ensures AddSecurityHeaders(AddSecurityHeaders(resp, policy), policy) == AddSecurityHeaders(resp, policy)
  {
    SetHeadersIdempotent(resp.headers, HeaderAssignments(SerializeCsp(policy)));
  }

  /* ------------------------------------------------------------ sanitiser */

  /** `NO_RATE_LIMIT = os.getenv("NO_RATE_LIMIT", False)` used as a condition:
      `False` when unset, otherwise the variable's text, which is true
      whenever it is not empty. */
  function BypassActive(env: Option<string>): (b: bool)
    ensures b <==> env.Some? && |env.value| > 0
  {
    match env
    case None => false
    case Some(v) => v != ""
  }

  /** Any non-empty setting turns the bypass on, including the texts
      "False" and "0". */
  lemma BypassOnForFalseLikeText()
    ensures BypassActive(Some("False")) && BypassActive(Some("0"))
    ensures !BypassActive(None) && !BypassActive(Some(""))
  {
  }

  /** `return_safe_html(input)`. With the bypass on the input comes back
      unchanged; otherwise it goes through the HTML parser and serialiser,
      which is a parameter here. */
  function ReturnSafeHtml(env: Option<string>, input: string, reserialise: string -> string): (r: string)
    ensures BypassActive(env) ==> r == input
    ensures !BypassActive(env) ==> r == reserialise(input)
  {
    if BypassActive(env) then input else reserialise(input)
  }

}
