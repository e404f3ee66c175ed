// Search-engine text the site serves (apps/web/src/lib/seo/url.js): XML escaping
// with the five predefined entities of section 4.6 of XML 1.0, the sitemap
// document, the robots.txt lines of section 2.2 of RFC 9309, and the plain-text
// fallback that strips a query and a fragment from a link.
module SeoUrl {
  import opened Results
  import opened Text

  // ---------------------------------------------------------------------
  // escapeXml

  /** String.prototype.replaceAll with a one-character pattern. */
  function ReplaceAll(s: string, c: char, rep: string): (r: string)
    decreases |s|
  {
    if |s| == 0 then [] else (if s[0] == c then rep else [s[0]]) + ReplaceAll(s[1..], c, rep)
  }

  lemma {:induction false} ReplaceAppend(a: string, b: string, c: char, rep: string)
    ensures ReplaceAll(a + b, c, rep) == ReplaceAll(a, c, rep) + ReplaceAll(b, c, rep)
    decreases |a|
  {
    if |a| == 0 {
      assert a + b == b;
    } else {
      assert (a + b)[1..] == a[1..] + b;
      ReplaceAppend(a[1..], b, c, rep);
    }
  }

  lemma {:induction false} ReplaceAbsent(s: string, c: char, rep: string)
    requires !Contains(s, c)
    ensures ReplaceAll(s, c, rep) == s
    decreases |s|
  {
    if |s| > 0 {
      assert forall k :: 0 <= k < |s[1..]| ==> s[1..][k] == s[k + 1];
      ReplaceAbsent(s[1..], c, rep);
    }
  }

  /**
   * escapeXml: the five replacements in turn, the ampersand first. The result
   * is the one-pass escape, holds no markup character, has every ampersand
   * begin an entity, and decodes back to the text.
   */
  function EscapeXml(s: string): (r: string)
    ensures r == EscapeEach(s)
    ensures NoMarkup(r) && AmpersandsOk(r)
    ensures Unescape(r) == s
  {
    EscapeIsEach(s);
    EscapeSafe(s);
    UnescapeEach(s);
    ReplaceChain(s)
  }

  /** The chain of five replaceAll calls as written. */
  function ReplaceChain(s: string): string {
    ReplaceAll(ReplaceAll(ReplaceAll(ReplaceAll(ReplaceAll(s, '&', "&amp;"), '<', "&lt;"), '>', "&gt;"), '"', "&quot;"), '\'', "&apos;")
  }

  /** The characters that may not appear in escaped text. */
  predicate IsMarkup(c: char) { c == '<' || c == '>' || c == '"' || c == '\'' }

  /** The predefined entity that stands for c, or c itself. */
  function Entity(c: char): string {
    if c == '&' then "&amp;"
    else if c == '<' then "&lt;"
    else if c == '>' then "&gt;"
    else if c == '"' then "&quot;"
    else if c == '\'' then "&apos;"
    else [c]
  }

  /** Reference definition: every character replaced by its entity at once. */
  function EscapeEach(s: string): string
    decreases |s|
  {
    if |s| == 0 then [] else Entity(s[0]) + EscapeEach(s[1..])
  }

  lemma EscapeAppend(a: string, b: string)
    ensures ReplaceChain(a + b) == ReplaceChain(a) + ReplaceChain(b)
  {
    var a1, b1 := ReplaceAll(a, '&', "&amp;"), ReplaceAll(b, '&', "&amp;");
    ReplaceAppend(a, b, '&', "&amp;");
    var a2, b2 := ReplaceAll(a1, '<', "&lt;"), ReplaceAll(b1, '<', "&lt;");
    ReplaceAppend(a1, b1, '<', "&lt;");
    var a3, b3 := ReplaceAll(a2, '>', "&gt;"), ReplaceAll(b2, '>', "&gt;");
    ReplaceAppend(a2, b2, '>', "&gt;");
    var a4, b4 := ReplaceAll(a3, '"', "&quot;"), ReplaceAll(b3, '"', "&quot;");
    ReplaceAppend(a3, b3, '"', "&quot;");
    ReplaceAppend(a4, b4, '\'', "&apos;");
  }

  /** An entity holds none of the characters replaced after its own. */
  lemma EntityClean(e: string)
    requires e == "&amp;" || e == "&lt;" || e == "&gt;" || e == "&quot;" || e == "&apos;"
    ensures !Contains(e, '<') && !Contains(e, '>') && !Contains(e, '"') && !Contains(e, '\'')
  {
  }

  lemma ReplaceOne(c: char, ch: char, rep: string)
    ensures ReplaceAll([c], ch, rep) == if c == ch then rep else [c]
  {
    assert [c][1..] == [];
  }

  lemma EscapeOne(c: char)
    ensures ReplaceChain([c]) == Entity(c)
  {
    var e := Entity(c);
    ReplaceOne(c, '&', "&amp;");
    if c == '&' {
      EntityClean(e);
      ReplaceAbsent(e, '<', "&lt;");
      ReplaceAbsent(e, '>', "&gt;");
      ReplaceAbsent(e, '"', "&quot;");
      ReplaceAbsent(e, '\'', "&apos;");
      return;
    }
    ReplaceOne(c, '<', "&lt;");
    if c == '<' {
      EntityClean(e);
      ReplaceAbsent(e, '>', "&gt;");
      ReplaceAbsent(e, '"', "&quot;");
      ReplaceAbsent(e, '\'', "&apos;");
      return;
    }
    ReplaceOne(c, '>', "&gt;");
    if c == '>' {
      EntityClean(e);
      ReplaceAbsent(e, '"', "&quot;");
      ReplaceAbsent(e, '\'', "&apos;");
      return;
    }
    ReplaceOne(c, '"', "&quot;");
    if c == '"' {
      EntityClean(e);
      ReplaceAbsent(e, '\'', "&apos;");
      return;
    }
    ReplaceOne(c, '\'', "&apos;");
  }

  /** The chain of replacements is the one-pass escape: no replacement sees the
      output of an earlier one, because the ampersand goes first. */
  lemma {:induction false} EscapeIsEach(s: string)
    ensures ReplaceChain(s) == EscapeEach(s)
    decreases |s|
  {
    if |s| == 0 {
    } else {
      assert s == [s[0]] + s[1..];
      EscapeAppend([s[0]], s[1..]);
      EscapeOne(s[0]);
      EscapeIsEach(s[1..]);
    }
  }

  /** No markup character survives. */
  predicate NoMarkup(t: string) { forall i :: 0 <= i < |t| ==> !IsMarkup(t[i]) }

  /** t holds one of the five entities at i. */
  predicate EntityAt(t: string, i: nat)
    requires i <= |t|
  {
    StartsWith(t[i..], "&amp;") || StartsWith(t[i..], "&lt;") || StartsWith(t[i..], "&gt;")
    || StartsWith(t[i..], "&quot;") || StartsWith(t[i..], "&apos;")
  }

  /** Every ampersand begins an entity. */
  predicate AmpersandsOk(t: string) {
    forall i :: 0 <= i < |t| && t[i] == '&' ==> EntityAt(t, i)
  }

  lemma PrefixExtends(x: string, y: string, p: string)
    requires StartsWith(x, p)
    ensures StartsWith(x + y, p)
  {
    assert (x + y)[..|p|] == x[..|p|];
  }

  lemma AmpersandsAppend(a: string, b: string)
    requires AmpersandsOk(a) && AmpersandsOk(b)
    ensures AmpersandsOk(a + b)
  {
    var t := a + b;
    forall i | 0 <= i < |t| && t[i] == '&' ensures EntityAt(t, i) {
      if i < |a| {
        assert a[i] == '&';
        assert t[i..] == a[i..] + b;
        if StartsWith(a[i..], "&amp;") { PrefixExtends(a[i..], b, "&amp;"); }
        if StartsWith(a[i..], "&lt;") { PrefixExtends(a[i..], b, "&lt;"); }
        if StartsWith(a[i..], "&gt;") { PrefixExtends(a[i..], b, "&gt;"); }
        if StartsWith(a[i..], "&quot;") { PrefixExtends(a[i..], b, "&quot;"); }
        if StartsWith(a[i..], "&apos;") { PrefixExtends(a[i..], b, "&apos;"); }
      } else {
        assert b[i - |a|] == '&';
        assert t[i..] == b[i - |a|..];
      }
    }
  }

  lemma EntityOk(c: char)
    ensures NoMarkup(Entity(c)) && AmpersandsOk(Entity(c))
  {
    var e := Entity(c);
    if c == '&' || IsMarkup(c) {
      assert e[0..] == e;
      forall i | 0 < i < |e| ensures e[i] != '&' {}
    }
  }

  /** Escaped text holds no markup character, and its every ampersand begins
      one of the five predefined entities. */
  lemma {:induction false} EscapeSafe(s: string)
    ensures NoMarkup(EscapeEach(s)) && AmpersandsOk(EscapeEach(s))
    decreases |s|
  {
    if |s| > 0 {
      EscapeSafe(s[1..]);
      EntityOk(s[0]);
      AmpersandsAppend(Entity(s[0]), EscapeEach(s[1..]));
    }
  }

  /** The character that t begins with once the five predefined entities are
      decoded, and how many characters of t it takes; any other character
      stands for itself. */
  function Decode(t: string): (r: (char, nat))
    requires |t| > 0
    ensures 1 <= r.1 <= |t|
  {
    if StartsWith(t, "&amp;") then ('&', 5)
    else if StartsWith(t, "&lt;") then ('<', 4)
    else if StartsWith(t, "&gt;") then ('>', 4)
    else if StartsWith(t, "&quot;") then ('"', 6)
    else if StartsWith(t, "&apos;") then ('\'', 6)
    else (t[0], 1)
  }

  /** Decoding of the whole text. */
  function Unescape(t: string): string
    decreases |t|
  {
    if |t| == 0 then [] else var d := Decode(t); [d.0] + Unescape(t[d.1..])
  }

  lemma DecodeEntity(c: char, u: string)
    ensures Decode(Entity(c) + u) == (c, |Entity(c)|)
  {
    var e := Entity(c);
    var t := e + u;
    assert t[..|e|] == e;
    if c == '&' {
    } else if c == '<' {
      assert t[1] == 'l';
    } else if c == '>' {
      assert t[1] == 'g';
    } else if c == '"' {
      assert t[1] == 'q';
    } else if c == '\'' {
      assert t[2] == 'p';
    } else {
      assert t[0] == c;
    }
  }

  lemma UnescapeStep(c: char, u: string)
    ensures Unescape(Entity(c) + u) == [c] + Unescape(u)
  {
    var t := Entity(c) + u;
    DecodeEntity(c, u);
    assert t[|Entity(c)|..] == u;
  }

  lemma {:induction false} UnescapeEach(s: string)
    ensures Unescape(EscapeEach(s)) == s
    decreases |s|
  {
    if |s| > 0 {
      UnescapeStep(s[0], EscapeEach(s[1..]));
      UnescapeEach(s[1..]);
      assert [s[0]] + s[1..] == s;
    }
  }

  // ---------------------------------------------------------------------
  // normalizeSiteUrl, toAbsoluteUrl

  /** The WHATWG URL parser, which the model does not contain: `origin` gives
      `protocol//host` of an absolute URL, or None where `new URL` throws, and
      `resolve(path, base)` is `new URL(path, base).toString()`. */
  datatype UrlLib = UrlLib(origin: string -> Option<string>, resolve: (string, string) -> string)

  /** normalizeSiteUrl: the scheme and host of the trimmed site URL, or "" when
      it is blank or does not parse. */
  function NormalizeSiteUrl(lib: UrlLib, siteUrl: string): (r: string)
    ensures AllSpace(Js, siteUrl) ==> r == ""
    ensures r != "" ==> lib.origin(Trim(Js, siteUrl)) == Some(r)
    ensures !AllSpace(Js, siteUrl) && lib.origin(Trim(Js, siteUrl)).Some? ==> r == lib.origin(Trim(Js, siteUrl)).value
  {
    var raw := Trim(Js, siteUrl);
    if raw == "" then ""
    else
      var u := lib.origin(raw);
      if u.None? then "" else u.value
  }

  /** Surrounding white space never changes the site URL. */
  lemma NormalizeTrimmed(lib: UrlLib, siteUrl: string)
    ensures NormalizeSiteUrl(lib, Trim(Js, siteUrl)) == NormalizeSiteUrl(lib, siteUrl)
  {
    TrimIdempotent(Js, siteUrl);
  }

  /** The path with a leading slash. */
  function Rooted(path: string): (r: string)
    ensures StartsWith(r, "/")
    ensures StartsWith(path, "/") ==> r == path
    ensures !StartsWith(path, "/") ==> r[1..] == path
  {
    if StartsWith(path, "/") then path else "/" + path
  }

  lemma RootedIdempotent(path: string)
    ensures Rooted(Rooted(path)) == Rooted(path)
  {
  }

  /** toAbsoluteUrl: the path resolved against the site when there is one, the
      path itself (or "/") when there is none. */
  function ToAbsoluteUrl(lib: UrlLib, siteUrl: string, pathname: string): (r: string)
    ensures NormalizeSiteUrl(lib, siteUrl) == "" ==> r != "" && (pathname != "" ==> r == pathname)
  {
    var base := NormalizeSiteUrl(lib, siteUrl);
    if base == "" then (if pathname == "" then "/" else pathname)
    else lib.resolve(Rooted(pathname), base)
  }

  /** Against a site, a relative path resolves as its rooted form does. */
  lemma AbsoluteIgnoresRoot(lib: UrlLib, siteUrl: string, pathname: string)
    requires NormalizeSiteUrl(lib, siteUrl) != ""
    ensures ToAbsoluteUrl(lib, siteUrl, pathname) == ToAbsoluteUrl(lib, siteUrl, Rooted(pathname))
  {
    RootedIdempotent(pathname);
  }

  /** A site URL that is already normalized normalizes to itself when the
      parser reports it as its own origin. */
  lemma NormalizeStable(lib: UrlLib, site: string)
    requires site != "" && lib.origin(site) == Some(site)
    requires !IsSpace(Js, site[0]) && !IsSpace(Js, site[|site| - 1])
    ensures NormalizeSiteUrl(lib, site) == site
  {
    TrimUnchanged(Js, site);
  }

  // ---------------------------------------------------------------------
  // stripQueryAndHash (the fallback taken where `new URL` throws)

  /** The text before the first '#', and of that the text before the first '?'. */
  function StripFallback(href: string): (r: string)
    ensures !Contains(r, '#') && !Contains(r, '?')
  {
    var noHash := Split(href, '#')[0];
    var noQuery := Split(noHash, '?')[0];
    assert Split(href, '#')[0] in Split(href, '#');
    assert Split(noHash, '?')[0] in Split(noHash, '?');
    assert !Contains(noQuery, '#') by {
      SplitFirst(noHash, '?');
      assert forall k :: 0 <= k < |noQuery| ==> noQuery[k] == noHash[k];
    }
    noQuery
  }

  lemma SplitFirst(s: string, sep: char)
    ensures Split(s, sep)[0] == s[..IndexOf(s, sep)]
  {
  }

  /** Independent description: the longest prefix of href without '#' or '?'. */
  predicate StopsAtQueryOrHash(href: string, r: string) {
    StartsWith(href, r) && !Contains(r, '#') && !Contains(r, '?')
    && (|r| < |href| ==> href[|r|] == '#' || href[|r|] == '?')
  }

  lemma StripExact(href: string)
    ensures StopsAtQueryOrHash(href, StripFallback(href))
  {
    var h := IndexOf(href, '#');
    SplitFirst(href, '#');
    var noHash := href[..h];
    SplitFirst(noHash, '?');
    var q := IndexOf(noHash, '?');
    var r := StripFallback(href);
    assert r == noHash[..q] == href[..q];
  }

  /** Only one string stands in that relation, so it pins the result down. */
  lemma StopsUnique(href: string, r1: string, r2: string)
    requires StopsAtQueryOrHash(href, r1) && StopsAtQueryOrHash(href, r2)
    ensures r1 == r2
  {
    if |r1| < |r2| {
      assert false;
    } else if |r2| < |r1| {
      assert false;
    }
    assert r1 == href[..|r1|] == r2;
  }

  /** Stripping twice is stripping once. */
  lemma StripIdempotent(href: string)
    ensures StripFallback(StripFallback(href)) == StripFallback(href)
  {
    var r := StripFallback(href);
    StripExact(r);
    assert StopsAtQueryOrHash(r, r);
    StopsUnique(r, StripFallback(r), r);
  }

  // ---------------------------------------------------------------------
  // renderRobotsTxt

  /** The input object; None stands for a disallow that is not an array and
      for an allowAll that is null or undefined. */
  datatype RobotsInput = RobotsInput(origin: string, disallow: Option<seq<string>>, allowAll: Option<bool>)

  function Paths(input: RobotsInput): seq<string> {
    if input.disallow.Some? then input.disallow.value else []
  }

  function AllowAll(input: RobotsInput): bool {
    input.allowAll.None? || input.allowAll.value
  }

  /** The paths kept for Disallow lines: the non-empty ones, in order. */
  function NonEmpty(ps: seq<string>): (r: seq<string>)
    ensures |r| <= |ps|
    ensures forall j :: 0 <= j < |r| ==> r[j] != ""
  {
    if |ps| == 0 then [] else (if ps[0] == "" then [] else [ps[0]]) + NonEmpty(ps[1..])
  }

  lemma {:induction false} NonEmptyMembers(ps: seq<string>, p: string)
    ensures p in NonEmpty(ps) <==> p in ps && p != ""
    decreases |ps|
  {
    if |ps| > 0 {
      NonEmptyMembers(ps[1..], p);
      assert ps == [ps[0]] + ps[1..];
    }
  }

  lemma {:induction false} NonEmptyKeepsAll(ps: seq<string>)
    requires forall j :: 0 <= j < |ps| ==> ps[j] != ""
    ensures NonEmpty(ps) == ps
    decreases |ps|
  {
    if |ps| > 0 {
      NonEmptyKeepsAll(ps[1..]);
    }
  }

  function DisallowLine(path: string): string {
    "Disallow: " + path
  }

  function SitemapLine(lib: UrlLib, origin: string): string {
    "Sitemap: " + ToAbsoluteUrl(lib, origin, "/sitemap.xml")
  }

  /** The lines of robots.txt: the user agent, the blanket rule, one Disallow
      line per non-empty path, and the sitemap when the site URL is usable. */
  function RobotsLines(lib: UrlLib, input: RobotsInput): (lines: seq<string>)
    ensures |lines| == 2 + |NonEmpty(Paths(input))| + (if NormalizeSiteUrl(lib, input.origin) != "" then 1 else 0)
    ensures lines[0] == "User-agent: *"
    ensures lines[1] == (if AllowAll(input) then "Allow: /" else "Disallow: /")
    ensures forall j :: 0 <= j < |NonEmpty(Paths(input))| ==> lines[2 + j] == DisallowLine(NonEmpty(Paths(input))[j])
    ensures NormalizeSiteUrl(lib, input.origin) != "" ==>
      lines[|lines| - 1] == SitemapLine(lib, NormalizeSiteUrl(lib, input.origin))
  {
    var origin := NormalizeSiteUrl(lib, input.origin);
    Layout(if AllowAll(input) then "Allow: /" else "Disallow: /", NonEmpty(Paths(input)),
      if origin != "" then [SitemapLine(lib, origin)] else [])
  }

  /** The user agent, the blanket rule, the Disallow lines and the optional sitemap line. */
  function Layout(rule: string, ps: seq<string>, sitemap: seq<string>): (lines: seq<string>)
    ensures |lines| == 2 + |ps| + |sitemap|
    ensures lines[0] == "User-agent: *" && lines[1] == rule
    ensures forall j :: 0 <= j < |ps| ==> lines[2 + j] == DisallowLine(ps[j])
    ensures |sitemap| > 0 ==> lines[|lines| - 1] == sitemap[|sitemap| - 1]
  {
    var disallows := seq(|ps|, j requires 0 <= j < |ps| => DisallowLine(ps[j]));
    ConcatAt(["User-agent: *", rule], disallows, sitemap);
    ["User-agent: *", rule] + disallows + sitemap
  }

  /** Where the parts of a three-part concatenation land. */
  lemma ConcatAt<T>(head: seq<T>, mid: seq<T>, tail: seq<T>)
    ensures var all := head + mid + tail;
      |all| == |head| + |mid| + |tail|
      && (forall j :: 0 <= j < |head| ==> all[j] == head[j])
      && (forall j :: 0 <= j < |mid| ==> all[|head| + j] == mid[j])
      && (|tail| > 0 ==> all[|all| - 1] == tail[|tail| - 1])
  {
  }

  /** renderRobotsTxt: the lines, each ended by a line feed. */
  function RenderRobotsTxt(lib: UrlLib, input: RobotsInput): (r: string)
    ensures |r| >= 1 && r[|r| - 1] == '\n'
    ensures r[..|r| - 1] == Join(RobotsLines(lib, input), '\n')
  {
    var here := Join(RobotsLines(lib, input), '\n');
    assert (here + "\n")[..|here|] == here;
    here + "\n"
  }

  lemma NoNewlineAppend(a: string, b: string)
    requires !Contains(a, '\n') && !Contains(b, '\n')
    ensures !Contains(a + b, '\n')
  {
    forall k | 0 <= k < |a + b| ensures (a + b)[k] != '\n' {
      if k >= |a| {
        assert (a + b)[k] == b[k - |a|];
      }
    }
  }

  /** No line of robots.txt holds a line feed unless a path or the sitemap URL does. */
  lemma LineNoNewline(lib: UrlLib, input: RobotsInput, j: int)
    requires forall i :: 0 <= i < |Paths(input)| ==> !Contains(Paths(input)[i], '\n')
    requires !Contains(ToAbsoluteUrl(lib, NormalizeSiteUrl(lib, input.origin), "/sitemap.xml"), '\n')
    requires 0 <= j < |RobotsLines(lib, input)|
    ensures !Contains(RobotsLines(lib, input)[j], '\n')
  {
    var ps := NonEmpty(Paths(input));
    var origin := NormalizeSiteUrl(lib, input.origin);
    forall i | 0 <= i < |ps| ensures !Contains(ps[i], '\n') {
      NonEmptyMembers(Paths(input), ps[i]);
    }
    var rule := if AllowAll(input) then "Allow: /" else "Disallow: /";
    var sitemap := if origin != "" then [SitemapLine(lib, origin)] else [];
    assert RobotsLines(lib, input) == Layout(rule, ps, sitemap);
    FixedLinesPlain();
    NoNewlineAppend("Sitemap: ", ToAbsoluteUrl(lib, origin, "/sitemap.xml"));
    assert forall i :: 0 <= i < |sitemap| ==> sitemap[i] == SitemapLine(lib, origin);
    LayoutNoNewline(rule, ps, sitemap, j);
  }

  /** The fixed texts of robots.txt hold no line feed. */
  lemma FixedLinesPlain()
    ensures !Contains("Sitemap: ", '\n') && !Contains("Disallow: ", '\n')
    ensures !Contains("Allow: /", '\n') && !Contains("Disallow: /", '\n')
  {
  }

  /** Lines laid out from parts free of line feeds are free of them. */
  lemma LayoutNoNewline(rule: string, ps: seq<string>, sitemap: seq<string>, j: int)
    requires !Contains(rule, '\n') && |sitemap| <= 1
    requires forall i :: 0 <= i < |ps| ==> !Contains(ps[i], '\n')
    requires forall i :: 0 <= i < |sitemap| ==> !Contains(sitemap[i], '\n')
    requires 0 <= j < |Layout(rule, ps, sitemap)|
    ensures !Contains(Layout(rule, ps, sitemap)[j], '\n')
  {
    var lines := Layout(rule, ps, sitemap);
    if 2 <= j < 2 + |ps| {
      NoNewlineAppend("Disallow: ", ps[j - 2]);
      assert lines[j] == DisallowLine(ps[j - 2]);
    }
  }

  /** Reading robots.txt back line by line gives the lines, as long as no path
      and no sitemap URL holds a line feed. */
  lemma RobotsReadBack(lib: UrlLib, input: RobotsInput)
    requires forall j :: 0 <= j < |Paths(input)| ==> !Contains(Paths(input)[j], '\n')
    requires !Contains(ToAbsoluteUrl(lib, NormalizeSiteUrl(lib, input.origin), "/sitemap.xml"), '\n')
    ensures var r := RenderRobotsTxt(lib, input);
      Split(r[..|r| - 1], '\n') == RobotsLines(lib, input)
  {
    var lines := RobotsLines(lib, input);
    forall p | p in lines ensures !Contains(p, '\n') {
      var j :| 0 <= j < |lines| && lines[j] == p;
      LineNoNewline(lib, input, j);
    }
    SplitJoin(lines, '\n');
  }

  /** The source's robots test: a site with everything allowed and no extra path. */
  lemma RobotsExample(lib: UrlLib, site: string, sitemap: string)
    requires site == "https://example.com" && sitemap == "https://example.com/sitemap.xml"
    requires lib.origin(site) == Some(site) && lib.resolve("/sitemap.xml", site) == sitemap
    ensures RobotsLines(lib, RobotsInput(site, Some([]), Some(true)))
      == ["User-agent: *", "Allow: /", "Sitemap: " + sitemap]
  {
    NormalizeStable(lib, site);
  }

  // ---------------------------------------------------------------------
  // renderSitemapXml

  /** One element of `urls`; None stands for a field that is absent or null.
      A null element behaves as one with every field absent. */
  datatype UrlInput = UrlInput(loc: Option<string>, lastmod: Option<string>,
                               changefreq: Option<string>, priority: Option<string>)

  /** The input object; None stands for `urls` that is not an array. */
  datatype SitemapInput = SitemapInput(origin: string, urls: Option<seq<UrlInput>>)

  /** An entry that makes it into the sitemap, its location made absolute. */
  datatype Listed = Listed(loc: string, lastmod: Option<string>,
                           changefreq: Option<string>, priority: Option<string>)

  /** A truthy string field. */
  predicate Present(o: Option<string>) { o.Some? && o.value != "" }

  /** The field as the sitemap shows it: an empty one is as good as absent. */
  function Shown(o: Option<string>): (r: Option<string>)
    ensures r.Some? <==> Present(o)
    ensures Present(o) ==> r == o
  {
    if Present(o) then o else None
  }

  /** The entry an input element becomes, if its location is non-empty. */
  function SafeUrl(lib: UrlLib, origin: string, u: UrlInput): (r: Option<Listed>)
    ensures r.Some? ==> r.value.loc != ""
    ensures r.Some? ==> Present(u.loc) && r.value.loc == ToAbsoluteUrl(lib, origin, u.loc.value)
    ensures r.Some? ==> r.value.lastmod == u.lastmod && r.value.changefreq == u.changefreq && r.value.priority == u.priority
    ensures Present(u.loc) && NormalizeSiteUrl(lib, origin) == "" ==> r.Some?
  {
    var loc := if Present(u.loc) then ToAbsoluteUrl(lib, origin, u.loc.value) else "";
    if loc == "" then None else Some(Listed(loc, u.lastmod, u.changefreq, u.priority))
  }

  /** The entries kept, in order. */
  function SafeUrls(lib: UrlLib, origin: string, urls: seq<UrlInput>): (r: seq<Listed>)
    ensures |r| <= |urls|
    ensures forall j :: 0 <= j < |r| ==> r[j].loc != ""
    decreases |urls|
  {
    if |urls| == 0 then []
    else
      var u := SafeUrl(lib, origin, urls[0]);
      (if u.Some? then [u.value] else []) + SafeUrls(lib, origin, urls[1..])
  }

  /** Every element with a location is kept when there is no site URL. */
  lemma {:induction false} SafeUrlsKeepAll(lib: UrlLib, origin: string, urls: seq<UrlInput>)
    requires NormalizeSiteUrl(lib, origin) == ""
    requires forall j :: 0 <= j < |urls| ==> Present(urls[j].loc)
    ensures |SafeUrls(lib, origin, urls)| == |urls|
    ensures forall j :: 0 <= j < |urls| ==> SafeUrls(lib, origin, urls)[j] == SafeUrl(lib, origin, urls[j]).value
    decreases |urls|
  {
    if |urls| > 0 {
      SafeUrlsKeepAll(lib, origin, urls[1..]);
      var r := SafeUrls(lib, origin, urls);
      forall j | 1 <= j < |urls| ensures r[j] == SafeUrl(lib, origin, urls[j]).value {
        assert urls[1..][j - 1] == urls[j];
      }
    }
  }

  function Open(name: string): string { "<" + name + ">" }

  function Close(name: string): string { "</" + name + ">" }

  /** An element holding escaped text. */
  function Tag(name: string, text: string): string {
    Open(name) + EscapeXml(text) + Close(name)
  }

  /** An optional element: nothing when the field is not truthy. */
  function Part(name: string, o: Option<string>): string {
    if Present(o) then Tag(name, o.value) else ""
  }

  /** One <url> element; joining the kept parts with "" is their concatenation. */
  function UrlXml(u: Listed): string {
    "<url>" + Tag("loc", u.loc) + Part("lastmod", u.lastmod) + Part("changefreq", u.changefreq)
    + Part("priority", u.priority) + "</url>"
  }

  function Body(us: seq<Listed>): string
    decreases |us|
  {
    if |us| == 0 then "" else UrlXml(us[0]) + Body(us[1..])
  }

  const Prolog: string := "<?xml version=\"1.0\" encoding=\"UTF-8\"?><urlset xmlns=\"http://www.sitemaps.org/schemas/sitemap/0.9\">"

  const UrlsetClose: string := "</urlset>"

  function Entries(lib: UrlLib, input: SitemapInput): seq<Listed> {
    var urls := if input.urls.Some? then input.urls.value else [];
    SafeUrls(lib, NormalizeSiteUrl(lib, input.origin), urls)
  }

  /** renderSitemapXml: the XML declaration, then the urlset of the entries. */
  function RenderSitemapXml(lib: UrlLib, input: SitemapInput): (r: string)
    ensures StartsWith(r, Prolog)
    ensures |r| >= |Prolog| + |UrlsetClose| && r[|r| - |UrlsetClose|..] == UrlsetClose
  {
    var body := Body(Entries(lib, input));
    Assoc3(Prolog, body, UrlsetClose);
    Halves(Prolog, body + UrlsetClose);
    Halves(Prolog + body, UrlsetClose);
    Prolog + body + UrlsetClose
  }

  // A reader of the sitemap, the partner of the renderer.

  /** The text up to the next '<', and what follows. */
  function ReadText(t: string): (r: (string, string))
    ensures r.0 + r.1 == t
  {
    var k := IndexOf(t, '<');
    assert t[..k] + t[k..] == t;
    (t[..k], t[k..])
  }

  /** An element named `name` at the start of t: its decoded text and the rest. */
  function ReadElement(name: string, t: string): (r: Option<(string, string)>)
    ensures r.Some? ==> |r.value.1| < |t|
  {
    if !StartsWith(t, Open(name)) then None
    else
      var x := ReadText(t[|Open(name)|..]);
      if !StartsWith(x.1, Close(name)) then None
      else Some((Unescape(x.0), x.1[|Close(name)|..]))
  }

  /** An optional element: absent when t does not open it. */
  function ReadOptional(name: string, t: string): (r: Option<(Option<string>, string)>)
    ensures r.Some? ==> |r.value.1| <= |t|
  {
    if !StartsWith(t, Open(name)) then Some((None, t))
    else
      var e := ReadElement(name, t);
      if e.None? then None else Some((Some(e.value.0), e.value.1))
  }

  /** The fields of a <url> element: its location and the optional elements. */
  function ReadFields(t: string): (r: Option<(Listed, string)>)
    ensures r.Some? ==> |r.value.1| < |t|
  {
    var loc := ReadElement("loc", t);
    if loc.None? then None
    else
      var lastmod := ReadOptional("lastmod", loc.value.1);
      if lastmod.None? then None
      else
        var changefreq := ReadOptional("changefreq", lastmod.value.1);
        if changefreq.None? then None
        else
          var priority := ReadOptional("priority", changefreq.value.1);
          if priority.None? then None
          else Some((Listed(loc.value.0, lastmod.value.0, changefreq.value.0, priority.value.0), priority.value.1))
  }

  function ReadUrl(t: string): (r: Option<(Listed, string)>)
    ensures r.Some? ==> |r.value.1| < |t|
  {
    if !StartsWith(t, "<url>") then None
    else
      var fields := ReadFields(t[5..]);
      if fields.None? then None
      else
        var rest := fields.value.1;
        if !StartsWith(rest, "</url>") then None
        else Some((fields.value.0, rest[6..]))
  }

  function ReadUrls(t: string): (r: Option<seq<Listed>>)
    decreases |t|
  {
    if t == UrlsetClose then Some([])
    else
      var u := ReadUrl(t);
      if u.None? then None
      else
        var more := ReadUrls(u.value.1);
        if more.None? then None else Some([u.value.0] + more.value)
  }

  /** The entries of a sitemap document, or None when it is not one. */
  function ReadSitemap(x: string): Option<seq<Listed>> {
    if !StartsWith(x, Prolog) then None else ReadUrls(x[|Prolog|..])
  }

  /** An entry as read back: empty optional fields come back absent. */
  function AsRead(u: Listed): Listed {
    Listed(u.loc, Shown(u.lastmod), Shown(u.changefreq), Shown(u.priority))
  }

  lemma {:induction false} IndexOfBefore(a: string, b: string, c: char)
    requires !Contains(a, c) && |b| > 0 && b[0] == c
    ensures IndexOf(a + b, c) == |a|
    decreases |a|
  {
    if |a| > 0 {
      assert (a + b)[1..] == a[1..] + b;
      assert forall k :: 0 <= k < |a[1..]| ==> a[1..][k] == a[k + 1];
      IndexOfBefore(a[1..], b, c);
    }
  }

  lemma ReadElementTag(name: string, text: string, rest: string)
    ensures ReadElement(name, Tag(name, text) + rest) == Some((text, rest))
  {
    var e := EscapeXml(text);
    var t := Tag(name, text) + rest;
    assert t == Open(name) + (e + (Close(name) + rest));
    assert t[..|Open(name)|] == Open(name);
    assert t[|Open(name)|..] == e + (Close(name) + rest);
    assert !Contains(e, '<');
    IndexOfBefore(e, Close(name) + rest, '<');
    var x := ReadText(t[|Open(name)|..]);
    assert x.0 == e && x.1 == Close(name) + rest;
    assert x.1[..|Close(name)|] == Close(name);
    assert x.1[|Close(name)|..] == rest;
  }

  /** What follows an optional element: another element or a closing tag. */
  predicate NextTag(t: string) { |t| >= 2 && t[0] == '<' }

  lemma PartStart(name: string, o: Option<string>, rest: string)
    requires |name| > 0 && NextTag(rest)
    ensures var t := Part(name, o) + rest;
      NextTag(t) && (t[1] == name[0] || t[1] == rest[1])
  {
    if Present(o) {
      Assoc3(Open(name), EscapeXml(o.value) + Close(name), rest);
      OpenStart(name, EscapeXml(o.value) + Close(name) + rest);
    }
  }

  /** Text after an opening tag starts with '<' and the name. */
  lemma OpenStart(name: string, x: string)
    requires |name| > 0
    ensures var t := Open(name) + x; |t| >= 2 && t[0] == '<' && t[1] == name[0]
  {
  }

  lemma ReadOptionalPart(name: string, o: Option<string>, rest: string)
    requires |name| > 0 && NextTag(rest) && rest[1] != name[0]
    ensures ReadOptional(name, Part(name, o) + rest) == Some((Shown(o), rest))
  {
    if Present(o) {
      ReadPresent(name, o.value, rest);
    } else {
      assert Part(name, o) + rest == rest;
      ReadAbsent(name, rest);
    }
  }

  /** A present optional element reads back as its text. */
  lemma ReadPresent(name: string, text: string, rest: string)
    ensures ReadOptional(name, Tag(name, text) + rest) == Some((Some(text), rest))
  {
    var x := EscapeXml(text) + Close(name) + rest;
    Assoc3(Open(name), EscapeXml(text) + Close(name), rest);
    Halves(Open(name), x);
    ReadElementTag(name, text, rest);
  }

  /** Another tag where an optional element could start reads as its absence. */
  lemma ReadAbsent(name: string, rest: string)
    requires |name| > 0 && NextTag(rest) && rest[1] != name[0]
    ensures ReadOptional(name, rest) == Some((None, rest))
  {
    assert Open(name)[1] == name[0];
  }

  /** The fields read back from their elements. */
  lemma ReadFieldsXml(u: Listed, rest: string)
    requires NextTag(rest) && rest[1] == '/'
    ensures var t := Tag("loc", u.loc) + (Part("lastmod", u.lastmod) + (Part("changefreq", u.changefreq)
        + (Part("priority", u.priority) + rest)));
      ReadFields(t) == Some((AsRead(u), rest))
  {
    var r3 := Part("priority", u.priority) + rest;
    var r2 := Part("changefreq", u.changefreq) + r3;
    var r1 := Part("lastmod", u.lastmod) + r2;
    assert ReadElement("loc", Tag("loc", u.loc) + r1) == Some((u.loc, r1)) by {
      ReadElementTag("loc", u.loc, r1);
    }
    assert ReadOptional("lastmod", r1) == Some((Shown(u.lastmod), r2)) by {
      PartStart("priority", u.priority, rest);
      PartStart("changefreq", u.changefreq, r3);
      ReadOptionalPart("lastmod", u.lastmod, r2);
    }
    assert ReadOptional("changefreq", r2) == Some((Shown(u.changefreq), r3)) by {
      PartStart("priority", u.priority, rest);
      ReadOptionalPart("changefreq", u.changefreq, r3);
    }
    assert ReadOptional("priority", r3) == Some((Shown(u.priority), rest)) by {
      ReadOptionalPart("priority", u.priority, rest);
    }
  }

  /** Concatenation regrouped to the right. */
  lemma Regroup(a: string, b: string, c: string, d: string, e: string, f: string, g: string)
    ensures a + b + c + d + e + f + g == a + (b + (c + (d + (e + (f + g)))))
  {
  }

  /** Reading a <url> element gives back its entry, with empty fields absent. */
  lemma ReadUrlXml(u: Listed, rest: string)
    ensures ReadUrl(UrlXml(u) + rest) == Some((AsRead(u), rest))
  {
    var r4 := "</url>" + rest;
    var fields := Tag("loc", u.loc) + (Part("lastmod", u.lastmod) + (Part("changefreq", u.changefreq)
        + (Part("priority", u.priority) + r4)));
    var t := UrlXml(u) + rest;
    assert t == "<url>" + fields by {
      Regroup("<url>", Tag("loc", u.loc), Part("lastmod", u.lastmod), Part("changefreq", u.changefreq),
        Part("priority", u.priority), "</url>", rest);
    }
    assert t[..5] == "<url>" && t[5..] == fields;
    assert ReadFields(fields) == Some((AsRead(u), r4)) by {
      ReadFieldsXml(u, r4);
    }
    assert r4[..6] == "</url>" && r4[6..] == rest;
  }

  /** The entries as read back. */
  function AsReadAll(us: seq<Listed>): (r: seq<Listed>)
    ensures |r| == |us|
    ensures forall j :: 0 <= j < |us| ==> r[j] == AsRead(us[j])
    decreases |us|
  {
    if |us| == 0 then [] else [AsRead(us[0])] + AsReadAll(us[1..])
  }

  lemma {:induction false} ReadBody(us: seq<Listed>)
    ensures ReadUrls(Body(us) + UrlsetClose) == Some(AsReadAll(us))
    decreases |us|
  {
    if |us| == 0 {
      assert Body(us) + UrlsetClose == UrlsetClose;
    } else {
      var rest := Body(us[1..]) + UrlsetClose;
      BodyStep(us);
      ReadUrlXml(us[0], rest);
      ReadBody(us[1..]);
      ReadUrlsStep(UrlXml(us[0]) + rest, AsRead(us[0]), rest);
    }
  }

  /** The first <url> element, then the rest of the document. */
  lemma BodyStep(us: seq<Listed>)
    requires |us| > 0
    ensures Body(us) + UrlsetClose == UrlXml(us[0]) + (Body(us[1..]) + UrlsetClose)
    ensures |UrlXml(us[0]) + (Body(us[1..]) + UrlsetClose)| > |UrlsetClose|
  {
    Assoc3(UrlXml(us[0]), Body(us[1..]), UrlsetClose);
  }

  /** One <url> element read off the front of the rest of the document. */
  lemma ReadUrlsStep(t: string, u: Listed, rest: string)
    requires |t| > |UrlsetClose| && ReadUrl(t) == Some((u, rest))
    ensures ReadUrls(t) == if ReadUrls(rest).None? then None else Some([u] + ReadUrls(rest).value)
  {
  }

  /** Reading the sitemap back gives the kept entries in order, each as it was
      given except that empty optional fields come back absent. */
  lemma ReadRender(lib: UrlLib, input: SitemapInput)
    ensures ReadSitemap(RenderSitemapXml(lib, input)) == Some(AsReadAll(Entries(lib, input)))
  {
    var us := Entries(lib, input);
    Assoc3(Prolog, Body(us), UrlsetClose);
    ReadAfterProlog(Body(us) + UrlsetClose);
    ReadBody(us);
  }

  /** A document is read past its prolog. */
  lemma ReadAfterProlog(rest: string)
    ensures ReadSitemap(Prolog + rest) == ReadUrls(rest)
  {
    Halves(Prolog, rest);
  }

  lemma Assoc3(a: string, b: string, c: string)
    ensures a + b + c == a + (b + c)
  {
  }

  lemma Halves(a: string, b: string)
    ensures (a + b)[..|a|] == a && (a + b)[|a|..] == b
  {
  }

  /** The entries of the source's sitemap test. */
  lemma EntriesExample(lib: UrlLib, site: string, loc: string, u: UrlInput)
    requires site == "https://example.com" && lib.origin(site) == Some(site)
    requires loc == "https://example.com/" && lib.resolve("/", site) == loc
    requires u == UrlInput(Some("/"), Some("2025-01-01T00:00:00.000Z"), Some("daily"), Some("1.0"))
    ensures AsReadAll(Entries(lib, SitemapInput(site, Some([u])))) == [Listed(loc, u.lastmod, u.changefreq, u.priority)]
  {
    var listed := Listed(loc, u.lastmod, u.changefreq, u.priority);
    NormalizeStable(lib, site);
    RootEntry(lib, site, loc, u);
    SafeUrlsOne(lib, site, u);
    AsReadOne(listed);
  }

  /** An element at "/" against a usable site becomes an entry at the site's root. */
  lemma RootEntry(lib: UrlLib, site: string, loc: string, u: UrlInput)
    requires NormalizeSiteUrl(lib, site) == site && site != "" && lib.resolve("/", site) == loc && loc != ""
    requires u.loc == Some("/")
    ensures SafeUrl(lib, site, u) == Some(Listed(loc, u.lastmod, u.changefreq, u.priority))
  {
    assert Rooted("/") == "/";
  }

  lemma SafeUrlsOne(lib: UrlLib, origin: string, u: UrlInput)
    ensures SafeUrls(lib, origin, [u])
      == if SafeUrl(lib, origin, u).Some? then [SafeUrl(lib, origin, u).value] else []
  {
    assert [u][1..] == [];
  }

  /** An entry with every field non-empty reads back unchanged. */
  lemma AsReadOne(x: Listed)
    requires Present(x.lastmod) && Present(x.changefreq) && Present(x.priority)
    ensures AsReadAll([x]) == [x]
  {
    assert [x][1..] == [];
  }

  /** The source's sitemap test: one entry with every field set. */
  lemma SitemapExample(lib: UrlLib, site: string, loc: string, u: UrlInput)
    requires site == "https://example.com" && lib.origin(site) == Some(site)
    requires loc == "https://example.com/" && lib.resolve("/", site) == loc
    requires u == UrlInput(Some("/"), Some("2025-01-01T00:00:00.000Z"), Some("daily"), Some("1.0"))
    ensures ReadSitemap(RenderSitemapXml(lib, SitemapInput(site, Some([u]))))
      == Some([Listed(loc, u.lastmod, u.changefreq, u.priority)])
  {
    EntriesExample(lib, site, loc, u);
    ReadRender(lib, SitemapInput(site, Some([u])));
  }
}
