/** download_steam_images.py: which image URLs a Steam Community page yields, the file
    name each one is saved under, and the count of successful downloads.
    The HTML parse is an input: the `src` of every `img`, the `href` of every `a`, and
    each styled element's `style` text with the `url(...)` payloads the regex finds in it.
    An absent attribute is the empty string (both are falsy in Python). */
module Scraper {
  import opened Common

  const SteamUserContent := "steamusercontent.com"
  const SteamStatic := "steamstatic.com"
  const SteamHost := "https://steamcommunity.com"

  predicate HasSteamDomain(s: string) {
    Contains(s, SteamUserContent) || Contains(s, SteamStatic)
  }

  /** One of '.jpg', '.jpeg', '.png', '.gif', '.webp' occurs anywhere in `s`. */
  predicate HasImageExtension(s: string) {
    Contains(s, ".jpg") || Contains(s, ".jpeg") || Contains(s, ".png")
    || Contains(s, ".gif") || Contains(s, ".webp")
  }

  /** `img` and style sources: protocol-relative and root-relative URLs are made absolute. */
  function NormalizeImg(src: string): (r: string)
    ensures StartsWith(src, "//") ==> r == "https:" + src
    ensures !StartsWith(src, "//") && StartsWith(src, "/") ==> r == SteamHost + src
    ensures !StartsWith(src, "/") ==> r == src
    ensures EndsWith(r, src)
  {
    if StartsWith(src, "//") then "https:" + src
    else if StartsWith(src, "/") then SteamHost + src
    else src
  }

  /** Anchor sources: only protocol-relative URLs are rewritten. */
  function NormalizeAnchor(href: string): (r: string)
    ensures StartsWith(href, "//") ==> r == "https:" + href
    ensures !StartsWith(href, "//") ==> r == href
  {
    if StartsWith(href, "//") then "https:" + href else href
  }

  /** An `img` is kept when its normalised src names a Steam domain and, lowercased,
      contains an image extension. */
  predicate KeepImg(src: string) {
    src != "" && HasSteamDomain(NormalizeImg(src)) && HasImageExtension(ToLower(NormalizeImg(src)))
  }

  /** An anchor is kept when its raw href names steamusercontent.com; there is no
      extension test. */
  predicate KeepAnchor(href: string) {
    href != "" && Contains(href, SteamUserContent)
  }

  /** A styled element is searched when its style mentions a background image or `url(`. */
  predicate StyleSearched(style: string) {
    Contains(style, "background-image") || Contains(style, "url(")
  }

  /** A style payload is kept when the raw payload names a Steam domain. */
  predicate KeepStylePayload(p: string) {
    HasSteamDomain(p)
  }

  datatype Styled = Styled(style: string, payloads: seq<string>)

  datatype Page = Page(imgSrcs: seq<string>, hrefs: seq<string>, styled: seq<Styled>)

  /** The normalised srcs of the kept `img` elements, in document order. */
  function ImgUrls(srcs: seq<string>): set<string> {
    if srcs == [] then {}
    else
      ImgUrls(srcs[..|srcs| - 1])
      + (var s := srcs[|srcs| - 1]; if KeepImg(s) then {NormalizeImg(s)} else {})
  }

  function AnchorUrls(hrefs: seq<string>): set<string> {
    if hrefs == [] then {}
    else
      AnchorUrls(hrefs[..|hrefs| - 1])
      + (var h := hrefs[|hrefs| - 1]; if KeepAnchor(h) then {NormalizeAnchor(h)} else {})
  }

  function PayloadUrls(payloads: seq<string>): set<string> {
    if payloads == [] then {}
    else
      PayloadUrls(payloads[..|payloads| - 1])
      + (var p := payloads[|payloads| - 1]; if KeepStylePayload(p) then {NormalizeImg(p)} else {})
  }

  function StyleUrls(styled: seq<Styled>): set<string> {
    if styled == [] then {}
    else
      StyleUrls(styled[..|styled| - 1])
      + (var e := styled[|styled| - 1]; if StyleSearched(e.style) then PayloadUrls(e.payloads) else {})
  }

  /** Every URL the page yields, without duplicates. */
  function PageUrls(page: Page): set<string> {
    ImgUrls(page.imgSrcs) + AnchorUrls(page.hrefs) + StyleUrls(page.styled)
  }

  lemma {:induction false} ImgUrlsStep(srcs: seq<string>, i: nat)
    requires i < |srcs|
    ensures ImgUrls(srcs[..i + 1])
            == ImgUrls(srcs[..i]) + (if KeepImg(srcs[i]) then {NormalizeImg(srcs[i])} else {})
  {
    assert srcs[..i + 1][..i] == srcs[..i];
  }

  lemma {:induction false} AnchorUrlsStep(hrefs: seq<string>, i: nat)
    requires i < |hrefs|
    ensures AnchorUrls(hrefs[..i + 1])
            == AnchorUrls(hrefs[..i]) + (if KeepAnchor(hrefs[i]) then {NormalizeAnchor(hrefs[i])} else {})
  {
    assert hrefs[..i + 1][..i] == hrefs[..i];
  }

  lemma {:induction false} PayloadUrlsStep(payloads: seq<string>, i: nat)
    requires i < |payloads|
    ensures PayloadUrls(payloads[..i + 1])
            == PayloadUrls(payloads[..i])
               + (if KeepStylePayload(payloads[i]) then {NormalizeImg(payloads[i])} else {})
  {
    assert payloads[..i + 1][..i] == payloads[..i];
  }

  /** The three collection loops of `scrape_steam_images`, adding to one set. */
  method CollectImageUrls(page: Page) returns (imageUrls: set<string>)
    ensures imageUrls == PageUrls(page)
  {
    imageUrls := CollectImgs(page.imgSrcs, {});
    imageUrls := CollectAnchors(page.hrefs, imageUrls);
    imageUrls := CollectStyled(page.styled, imageUrls);
  }

  /** The `img` loop: each kept src is added in its normalised form. */
  method CollectImgs(srcs: seq<string>, before: set<string>) returns (imageUrls: set<string>)
    ensures imageUrls == before + ImgUrls(srcs)
  {
    imageUrls := before;
    var i := 0;
    while i < |srcs|
      invariant 0 <= i <= |srcs|
      invariant imageUrls == before + ImgUrls(srcs[..i])
    {
      var src := srcs[i];
      if src != "" && KeepImg(src) {
        imageUrls := imageUrls + {NormalizeImg(src)};
      }
      ImgUrlsStep(srcs, i);
      i := i + 1;
    }
    assert srcs[..i] == srcs;
  }

  /** The anchor loop: each kept href is added, protocol-relative ones made https. */
  method CollectAnchors(hrefs: seq<string>, before: set<string>) returns (imageUrls: set<string>)
    ensures imageUrls == before + AnchorUrls(hrefs)
  {
    imageUrls := before;
    var i := 0;
    while i < |hrefs|
      invariant 0 <= i <= |hrefs|
      invariant imageUrls == before + AnchorUrls(hrefs[..i])
    {
      var href := hrefs[i];
      if KeepAnchor(href) {
        imageUrls := imageUrls + {NormalizeAnchor(href)};
      }
      AnchorUrlsStep(hrefs, i);
      i := i + 1;
    }
    assert hrefs[..i] == hrefs;
  }

  /** The styled-element loop, with the inner loop over the `url(...)` payloads. */
  method CollectStyled(styled: seq<Styled>, before: set<string>) returns (imageUrls: set<string>)
    ensures imageUrls == before + StyleUrls(styled)
  {
    imageUrls := before;
    var i := 0;
    while i < |styled|
      invariant 0 <= i <= |styled|
      invariant imageUrls == before + StyleUrls(styled[..i])
    {
      var e := styled[i];
      if StyleSearched(e.style) {
        imageUrls := CollectPayloads(e.payloads, imageUrls);
      }
      assert styled[..i + 1][..i] == styled[..i];
      i := i + 1;
    }
    assert styled[..i] == styled;
  }

  /** The inner loop: each payload naming a Steam domain is added in normalised form. */
  method CollectPayloads(payloads: seq<string>, before: set<string>) returns (imageUrls: set<string>)
    ensures imageUrls == before + PayloadUrls(payloads)
  {
    imageUrls := before;
    var j := 0;
    while j < |payloads|
      invariant 0 <= j <= |payloads|
      invariant imageUrls == before + PayloadUrls(payloads[..j])
    {
      var u := payloads[j];
      if KeepStylePayload(u) {
        imageUrls := imageUrls + {NormalizeImg(u)};
      }
      PayloadUrlsStep(payloads, j);
      j := j + 1;
    }
    assert payloads[..j] == payloads;
  }

  /** Each `img` element adds at most one URL, so the img loop yields no more URLs than
      there are `img` elements. */
  lemma {:induction false} ImgUrlsBound(srcs: seq<string>)
    ensures |ImgUrls(srcs)| <= |srcs|
  {
    if srcs != [] {
      var n := |srcs| - 1;
      ImgUrlsBound(srcs[..n]);
      ImgUrlsStep(srcs, n);
      assert srcs[..n + 1] == srcs;
    }
  }

  lemma {:induction false} AnchorUrlsBound(hrefs: seq<string>)
    ensures |AnchorUrls(hrefs)| <= |hrefs|
  {
    if hrefs != [] {
      var n := |hrefs| - 1;
      AnchorUrlsBound(hrefs[..n]);
      AnchorUrlsStep(hrefs, n);
      assert hrefs[..n + 1] == hrefs;
    }
  }

  /** A protocol-relative URL becomes an https URL whichever element it comes from. */
  lemma {:induction false} ProtocolRelativeToHttps(u: string)
    requires StartsWith(u, "//")
    ensures NormalizeImg(u) == "https:" + u && NormalizeAnchor(u) == "https:" + u
  {
  }

  /** A root-relative href that is kept stays root-relative, while the same text as an
      `img` or style source would get the steamcommunity host: the rules are not symmetric. */
  lemma {:induction false} AnchorsNeverHostPrefixed(u: string)
    requires StartsWith(u, "/") && !StartsWith(u, "//") && KeepAnchor(u)
    ensures u in AnchorUrls([u])
    ensures NormalizeImg(u) == SteamHost + u != u
  {
    assert u in [u];
  }

  /** The extension may occur anywhere, not only at the end: a query string after it
      does not stop the URL from being kept. */
  lemma {:induction false} ExtensionNotOnlySuffix()
    ensures KeepImg("https://a." + SteamStatic + "/b.png?s=1")
  {
    var a, b := "https://a.", "/b.png?s=1";
    var u := a + SteamStatic + b;
    assert NormalizeImg(u) == u;
    assert u[10..25] == SteamStatic;
    assert OccursAt(u, SteamStatic, 10);
    var l := ToLower(u);
    assert l[27..31] == u[27..31];
    assert u[27..31] == b[2..6] == ".png";
    assert OccursAt(l, ".png", 27);
  }

  /** The style rule tests the raw payload: a root-relative payload naming a Steam
      domain is kept and then made absolute. */
  lemma {:induction false} StylePayloadTestedRaw(p: string)
    requires StartsWith(p, "/") && !StartsWith(p, "//") && HasSteamDomain(p)
    ensures SteamHost + p in PayloadUrls([p])
  {
    assert p in [p];
  }

  // ---------------------------------------------------------------------------
  // extract_filename_from_url

  predicate IsAsciiAlpha(c: char) {
    ('a' <= c <= 'z') || ('A' <= c <= 'Z')
  }

  predicate IsSchemeChar(c: char) {
    IsAsciiAlnum(c) || c == '+' || c == '-' || c == '.'
  }

  /** `urlparse` scheme: a letter followed by scheme characters before the first ':'. */
  predicate HasScheme(url: string) {
    ':' in url && 0 < IndexOf(url, ':') && IsAsciiAlpha(url[0])
    && forall k :: 0 <= k < IndexOf(url, ':') ==> IsSchemeChar(url[k])
  }

  /** The characters that end a network location. */
  predicate EndsNetloc(c: char) {
    c == '/' || c == '?' || c == '#'
  }

  /** Drops the network location, which runs to the first '/', '?' or '#'. */
  function DropNetloc(s: string): (r: string)
    ensures EndsWith(s, r)
    ensures r == [] || EndsNetloc(r[0])
  {
    if s == [] || EndsNetloc(s[0]) then s
    else
      var r := DropNetloc(s[1..]);
      assert s[|s| - |r|..] == s[1..][|s[1..]| - |r|..];
      r
  }

  /** The network location that follows `//`, up to the first '/', '?' or '#'. */
  function Netloc(s: string): (r: string)
    ensures s == r + DropNetloc(s)
  {
    s[..|s| - |DropNetloc(s)|]
  }

  /** WHATWG "C0 control or space" (U+0000 to U+0020): what `urlsplit` strips from the
      front of a URL. */
  predicate IsC0OrSpace(c: char) {
    c <= ' '
  }

  /** `url.lstrip(_WHATWG_C0_CONTROL_OR_SPACE)`. */
  function StripLeadingC0(s: string): (r: string)
    ensures r == [] || !IsC0OrSpace(r[0])
  {
    if s != [] && IsC0OrSpace(s[0]) then StripLeadingC0(s[1..]) else s
  }

  /** The tab, CR and LF that `urlsplit` deletes wherever they occur. */
  predicate IsUnsafe(c: char) {
    c == '\t' || c == '\r' || c == '\n'
  }

  /** The URL without its tabs, CRs and LFs (the three `replace` calls of `urlsplit`). */
  function RemoveUnsafe(s: string): (r: string)
    ensures |r| <= |s|
    ensures forall i :: 0 <= i < |r| ==> !IsUnsafe(r[i])
  {
    if s == [] then []
    else (if IsUnsafe(s[0]) then [] else [s[0]]) + RemoveUnsafe(s[1..])
  }

  /** The text `urlsplit` goes on to split: leading C0 characters and spaces stripped,
      then tabs, CRs and LFs deleted. */
  function Cleaned(url: string): string {
    RemoveUnsafe(StripLeadingC0(url))
  }

  /** `urlsplit` raises "Invalid IPv6 URL" when the network location has a '[' and no ']',
      or a ']' and no '['. */
  predicate UnbalancedBrackets(netloc: string) {
    ('[' in netloc) != (']' in netloc)
  }

  /** `urllib.parse.uses_params`: the schemes whose last path segment loses its `;params`
      (the empty scheme is one of them). */
  const UsesParams: set<string> := {"", "ftp", "hdl", "prospero", "http", "imap", "https", "shttp",
                                    "rtsp", "rtsps", "rtspu", "sip", "sips", "mms", "sftp", "tel"}

  /** `_splitparams`: the path up to the first ';' at or after its last '/' (the first ';'
      anywhere when there is no '/'). */
  function DropParams(p: string): (r: string)
    ensures |r| <= |p| && r == p[..|r|]
    ensures forall x :: x in r ==> x in p
    ensures ';' !in p ==> r == p
    ensures r != p ==> p[|r|] == ';' && '/' !in p[|r|..]
  {
    var j := if '/' in p then LastIndexOf(p, '/') else 0;
    if ';' in p[j..] then
      var r := p[..j + IndexOf(p[j..], ';')];
      assert forall k :: j < k < |p| ==> p[k] != '/';
      assert forall k :: |r| <= k < |p| ==> p[|r|..][k - |r|] == p[k];
      assert forall k :: 0 <= k < |r| ==> r[k] == p[k];
      r
    else p
  }

  /** The scheme `urlsplit` finds, lowercased, or "" when there is none. */
  function SchemeOf(u: string): string {
    if HasScheme(u) then ToLower(u[..IndexOf(u, ':')]) else ""
  }

  /** The text after the scheme and its ':'. */
  function AfterScheme(u: string): (r: string)
    ensures EndsWith(u, r)
  {
    if HasScheme(u) then u[IndexOf(u, ':') + 1..] else u
  }

  /** The text after the network location when it starts with `//`, or `None` when that
      network location has unbalanced brackets. */
  function HierPath(rest: string): (r: Option<string>)
    ensures r.None? <==> StartsWith(rest, "//") && UnbalancedBrackets(Netloc(rest[2..]))
  {
    if !StartsWith(rest, "//") then Some(rest)
    else if UnbalancedBrackets(Netloc(rest[2..])) then None
    else Some(DropNetloc(rest[2..]))
  }

  /** The path without its fragment and its query. */
  function PathPart(hier: string): (r: string)
    ensures '?' !in r && '#' !in r
    ensures StartsWith(hier, r)
  {
    var h1 := BeforeFirst(hier, '#');
    var r := BeforeFirst(h1, '?');
    assert forall i :: 0 <= i < |r| ==> r[i] == h1[i];
    r
  }

  /** The `path` of `urllib.parse.urlparse(url)`, or `None` where `urlparse` raises
      ValueError: the cleaned text is parsed. */
  function UrlPath(url: string): (r: Option<string>)
    ensures r.Some? ==> '?' !in r.value && '#' !in r.value
  {
    ParseCleaned(Cleaned(url))
  }

  /** The parse of a cleaned URL. The scheme is the text before the first ':' when that
      is a letter followed by scheme characters; a network location follows `//`; the
      fragment and the query are cut off; and for the schemes in `UsesParams` so are the
      params. */
  function ParseCleaned(u: string): (r: Option<string>)
    ensures r.Some? ==> '?' !in r.value && '#' !in r.value
    ensures r.None? <==> HierPath(AfterScheme(u)).None?
  {
    match HierPath(AfterScheme(u))
    case None => None
    case Some(hier) =>
      var path := PathPart(hier);
      Some(if SchemeOf(u) in UsesParams then DropParams(path) else path)
  }

  function RemoveChar(s: string, c: char): (r: string)
    ensures c !in r && |r| <= |s|
  {
    if s == [] then []
    else if s[0] == c then RemoveChar(s[1..], c)
    else [s[0]] + RemoveChar(s[1..], c)
  }

  /** Python `isalnum` on ASCII text: nonempty, letters and digits only. */
  predicate IsAlnumText(s: string) {
    s != [] && forall i :: 0 <= i < |s| ==> IsAsciiAlnum(s[i])
  }

  /** A path segment that looks like a Steam image id. */
  predicate IsSteamId(part: string) {
    |part| > 10 && IsAlnumText(RemoveChar(RemoveChar(part, '_'), '-'))
  }

  /** The position of the first Steam id among `parts`, searching from `from`. */
  function FirstSteamId(parts: seq<string>, from: nat): (r: Option<nat>)
    requires from <= |parts|
    ensures r.Some? ==> from <= r.value < |parts| && IsSteamId(parts[r.value])
                        && forall k :: from <= k < r.value ==> !IsSteamId(parts[k])
    ensures r.None? ==> forall k :: from <= k < |parts| ==> !IsSteamId(parts[k])
    decreases |parts| - from
  {
    if from == |parts| then None
    else if IsSteamId(parts[from]) then Some(from)
    else FirstSteamId(parts, from + 1)
  }

  /** `steam_image_<id>.jpg` for the first id-like segment among `parts` when the URL names
      steamusercontent.com, if there is one. */
  function SteamName(steamDomain: bool, parts: seq<string>): (r: Option<string>)
    requires forall k :: 0 <= k < |parts| ==> '/' !in parts[k]
    ensures r.Some? ==> '/' !in r.value && '.' in r.value
  {
    var steam := if steamDomain then FirstSteamId(parts, 0) else None;
    if steam.None? then None
    else
      var name := "steam_image_" + parts[steam.value] + ".jpg";
      assert name[|name| - 4] == '.';
      Some(name)
  }

  /** The basename of the path when it has a '.', else `image_<n>.jpg` with n the hash
      reduced modulo 10000 (Python's `%` by a positive number is never negative). */
  function FallbackName(path: string, urlHash: int): (name: string)
    ensures '/' !in name && '.' in name
  {
    var base := AfterLast(path, '/');
    if base != [] && '.' in base then base
    else
      var n := NatToString(urlHash % 10000);
      NatToStringDigits(urlHash % 10000);
      assert forall i :: 0 <= i < |n| ==> n[i] != '/';
      var name := "image_" + n + ".jpg";
      assert name[|name| - 4] == '.';
      name
  }

  /** The file name for a URL that names steamusercontent.com or not (`steamDomain`), has
      the path `path`, and hashes to `urlHash`. */
  function FileNameFor(steamDomain: bool, path: string, urlHash: int): (name: string)
    ensures '/' !in name && '.' in name
  {
    SplitPiecesLackSeparator(path, '/');
    match SteamName(steamDomain, Split(path, '/'))
    case Some(name) => name
    case None => FallbackName(path, urlHash)
  }

  /** `extract_filename_from_url`, with `urlHash` standing for Python's `hash(url)`;
      `None` where `urlparse` raises. */
  function ExtractFilename(url: string, urlHash: int): (name: Option<string>)
    ensures name.None? <==> UrlPath(url).None?
    ensures name.Some? ==> '/' !in name.value && '.' in name.value
  {
    match UrlPath(url)
    case None => None
    case Some(path) => Some(FileNameFor(Contains(url, SteamUserContent), path, urlHash))
  }

  /** The Steam rule comes first: for a steamusercontent.com URL with an id-like path
      segment, the first such segment names the file. */
  lemma {:induction false} FilenameFromSteamId(path: string, urlHash: int, k: nat)
    requires k < |Split(path, '/')| && IsSteamId(Split(path, '/')[k])
    requires forall j :: 0 <= j < k ==> !IsSteamId(Split(path, '/')[j])
    ensures FileNameFor(true, path, urlHash) == "steam_image_" + Split(path, '/')[k] + ".jpg"
  {
    var parts := Split(path, '/');
    SplitPiecesLackSeparator(path, '/');
    var r := FirstSteamId(parts, 0);
    assert r == Some(k);
  }

  /** Otherwise the basename of the path is used when it has a '.'. */
  lemma {:induction false} FilenameFromBasename(steamDomain: bool, path: string, urlHash: int)
    requires !steamDomain || forall j :: 0 <= j < |Split(path, '/')| ==> !IsSteamId(Split(path, '/')[j])
    requires '.' in AfterLast(path, '/')
    ensures FileNameFor(steamDomain, path, urlHash) == AfterLast(path, '/')
  {
    SplitPiecesLackSeparator(path, '/');
    assert SteamName(steamDomain, Split(path, '/')).None?;
  }

  /** And failing both, `image_<hash mod 10000>.jpg`, the number in 0..9999. */
  lemma {:induction false} FilenameFromHash(steamDomain: bool, path: string, urlHash: int)
    requires !steamDomain || forall j :: 0 <= j < |Split(path, '/')| ==> !IsSteamId(Split(path, '/')[j])
    requires '.' !in AfterLast(path, '/')
    ensures exists n :: 0 <= n < 10000 && FileNameFor(steamDomain, path, urlHash) == "image_" + NatToString(n) + ".jpg"
  {
    SplitPiecesLackSeparator(path, '/');
    assert SteamName(steamDomain, Split(path, '/')).None?;
    var n := urlHash % 10000;
    assert FileNameFor(steamDomain, path, urlHash) == "image_" + NatToString(n) + ".jpg";
  }

  /** `https://<host><path>` taken apart: it is left as it is by the cleaning, its
      scheme is https, and the host runs up to the path. */
  lemma {:induction false} HttpsParts(host: string, path: string)
    requires '/' !in host && '?' !in host && '#' !in host
    requires forall x :: x in host + path ==> !IsUnsafe(x)
    requires StartsWith(path, "/")
    ensures var url := "https://" + host + path;
            Cleaned(url) == url && SchemeOf(url) == "https" && AfterScheme(url) == "//" + host + path
            && Netloc(host + path) == host && DropNetloc(host + path) == path
  {
    HttpsClean(host, path);
    HttpsSchemeParts(host, path);
    HostThenPath(host, path);
  }

  lemma {:induction false} HttpsSchemeParts(host: string, path: string)
    ensures SchemeOf("https://" + host + path) == "https"
    ensures AfterScheme("https://" + host + path) == "//" + host + path
  {
    HttpsSchemeOf("//" + host + path);
    assert "https://" + host + path == "https:" + ("//" + host + path);
  }

  /** A host without '/', '?' or '#' is the whole network location in front of a path. */
  lemma {:induction false} HostThenPath(host: string, path: string)
    requires '/' !in host && '?' !in host && '#' !in host
    requires path == [] || EndsNetloc(path[0])
    ensures Netloc(host + path) == host && DropNetloc(host + path) == path
  {
    assert forall i :: 0 <= i < |host| ==> host[i] in host;
    DropNetlocOfHost(host, path);
  }

  lemma {:induction false} HttpsClean(host: string, path: string)
    requires forall x :: x in host + path ==> !IsUnsafe(x)
    ensures Cleaned("https://" + host + path) == "https://" + host + path
  {
    var url := "https://" + host + path;
    assert url == "https://" + (host + path);
    forall i | 0 <= i < |url| ensures !IsUnsafe(url[i]) {
      if i >= 8 {
        assert url[i] == (host + path)[i - 8];
      }
    }
    assert !IsC0OrSpace(url[0]);
    RemoveUnsafeKeeps(url);
  }

  lemma {:induction false} HttpsSchemeOf(rest: string)
    ensures SchemeOf("https:" + rest) == "https" && AfterScheme("https:" + rest) == rest
  {
    HttpsScheme(rest);
    var url := "https:" + rest;
    assert url[..5] == "https";
    assert ToLower("https") == "https";
  }

  lemma {:induction false} RemoveUnsafeKeeps(s: string)
    requires forall i :: 0 <= i < |s| ==> !IsUnsafe(s[i])
    ensures RemoveUnsafe(s) == s
  {
    if s != [] {
      RemoveUnsafeKeeps(s[1..]);
    }
  }

  /** For an absolute https URL whose host has balanced brackets, the path is the text
      after the host, less the query, the fragment and the params of its last segment. */
  lemma {:induction false} HttpsUrlPath(host: string, path: string)
    requires '/' !in host && '?' !in host && '#' !in host && !UnbalancedBrackets(host)
    requires forall x :: x in host + path ==> !IsUnsafe(x)
    requires StartsWith(path, "/") && '?' !in path && '#' !in path
    ensures UrlPath("https://" + host + path) == Some(DropParams(path))
  {
    var url := "https://" + host + path;
    HttpsParts(host, path);
    HttpsHier(host, path);
    assert PathPart(path) == path;
    assert "https" in UsesParams;
  }

  /** The text after the scheme of such a URL has the path after its host. */
  lemma {:induction false} HttpsHier(host: string, path: string)
    requires '/' !in host && '?' !in host && '#' !in host
    requires StartsWith(path, "/")
    ensures HierPath("//" + host + path)
            == if UnbalancedBrackets(host) then None else Some(path)
  {
    var rest := "//" + host + path;
    assert StartsWith(rest, "//");
    assert rest[2..] == host + path;
    HostThenPath(host, path);
  }

  /** A host with a '[' and no ']', or the reverse, makes `urlparse` raise, and with it
      `extract_filename_from_url`: no file name is given, whatever the path. */
  lemma {:induction false} UnbalancedHostRaises(host: string, path: string, h: int)
    requires '/' !in host && '?' !in host && '#' !in host && UnbalancedBrackets(host)
    requires forall x :: x in host + path ==> !IsUnsafe(x)
    requires StartsWith(path, "/")
    ensures UrlPath("https://" + host + path).None?
    ensures ExtractFilename("https://" + host + path, h).None?
  {
    HttpsParts(host, path);
    HttpsHier(host, path);
  }

  /** Leading C0 characters and spaces do not reach the parse. */
  lemma {:induction false} LeadingC0Ignored(c: char, url: string)
    requires IsC0OrSpace(c)
    ensures UrlPath([c] + url) == UrlPath(url)
  {
    assert ([c] + url)[1..] == url;
    assert StripLeadingC0([c] + url) == StripLeadingC0(url);
  }

  /** A tab, CR or LF anywhere in the URL is deleted before the parse. */
  lemma {:induction false} UnsafeCharIgnored(a: string, c: char, b: string)
    requires IsUnsafe(c)
    ensures UrlPath(a + [c] + b) == UrlPath(a + b)
  {
    CleanedDropsUnsafe(a, c, b);
  }

  lemma {:induction false} CleanedDropsUnsafe(a: string, c: char, b: string)
    requires IsUnsafe(c)
    ensures Cleaned(a + [c] + b) == Cleaned(a + b)
  {
    assert a + [c] + b == a + ([c] + b);
    StripLeadingC0Concat(a, [c] + b);
    StripLeadingC0Concat(a, b);
    var sa := StripLeadingC0(a);
    if sa == [] {
      assert ([c] + b)[1..] == b;
    } else {
      RemoveUnsafeSkips(sa, c, b);
    }
  }

  lemma {:induction false} RemoveUnsafeSkips(s: string, c: char, b: string)
    requires IsUnsafe(c)
    ensures RemoveUnsafe(s + ([c] + b)) == RemoveUnsafe(s + b)
  {
    RemoveUnsafeConcat(s, [c] + b);
    RemoveUnsafeConcat(s, b);
    assert ([c] + b)[0] == c && ([c] + b)[1..] == b;
  }

  lemma {:induction false} StripLeadingC0Concat(a: string, b: string)
    ensures StripLeadingC0(a + b)
            == if StripLeadingC0(a) == [] then StripLeadingC0(b) else StripLeadingC0(a) + b
  {
    if a == [] {
      assert a + b == b;
    } else {
      assert (a + b)[0] == a[0] && (a + b)[1..] == a[1..] + b;
      if IsC0OrSpace(a[0]) {
        StripLeadingC0Concat(a[1..], b);
      }
    }
  }

  lemma {:induction false} RemoveUnsafeConcat(s: string, t: string)
    ensures RemoveUnsafe(s + t) == RemoveUnsafe(s) + RemoveUnsafe(t)
  {
    if s == [] {
      assert s + t == t;
    } else {
      assert (s + t)[0] == s[0] && (s + t)[1..] == s[1..] + t;
      RemoveUnsafeConcat(s[1..], t);
    }
  }

  /** A URL that is a host alone after a leading space, such as " //cdn.steamstatic.com.png",
      has an empty path once the space is stripped, so it gets the hash name. */
  lemma {:induction false} HostOnlyHashName(host: string, h: int)
    requires '/' !in host && '?' !in host && '#' !in host && 'u' !in host
    requires !UnbalancedBrackets(host) && forall x :: x in host ==> !IsUnsafe(x)
    ensures ExtractFilename(" //" + host, h) == Some("image_" + NatToString(h % 10000) + ".jpg")
  {
    assert " //" + host == [' '] + ("//" + host);
    LeadingC0Ignored(' ', "//" + host);
    HostOnlyPath(host);
    assert 'u' !in " //" + host;
    NoUserContent(" //" + host);
    EmptyPathHashName(h);
  }

  /** `//<host>` has no scheme, and its path is empty. */
  lemma {:induction false} HostOnlyPath(host: string)
    requires '/' !in host && '?' !in host && '#' !in host
    requires !UnbalancedBrackets(host) && forall x :: x in host ==> !IsUnsafe(x)
    ensures UrlPath("//" + host) == Some([])
  {
    var url := "//" + host;
    forall i | 0 <= i < |url| ensures !IsUnsafe(url[i]) {
      if i >= 2 {
        assert url[i] == host[i - 2];
      }
    }
    RemoveUnsafeKeeps(url);
    assert Cleaned(url) == url;
    assert !HasScheme(url);
    assert url[2..] == host + [];
    HostThenPath(host, []);
    assert HierPath(url) == Some([]);
  }

  lemma {:induction false} EmptyPathHashName(h: int)
    ensures FileNameFor(false, [], h) == "image_" + NatToString(h % 10000) + ".jpg"
  {
    SplitPiecesLackSeparator([], '/');
    assert SteamName(false, Split([], '/')).None?;
  }

  lemma {:induction false} HttpsScheme(rest: string)
    ensures HasScheme("https:" + rest) && IndexOf("https:" + rest, ':') == 5
  {
    var url := "https:" + rest;
    assert url[..5] == "https";
    assert ':' !in url[..5];
    assert url[5] == ':';
  }

  lemma {:induction false} DropNetlocOfHost(host: string, path: string)
    requires forall i :: 0 <= i < |host| ==> !EndsNetloc(host[i])
    requires path == [] || EndsNetloc(path[0])
    ensures DropNetloc(host + path) == path
  {
    var s := host + path;
    if host == [] {
      assert s == path;
    } else {
      assert s[0] == host[0];
      assert s[1..] == host[1..] + path;
      DropNetlocOfHost(host[1..], path);
    }
  }

  /** URLs that differ in host or directory but end in the same file share a file name
      (`https://<host>/<d>/a.png` is saved as a.png whenever `urlparse` accepts the host),
      so a later download overwrites an earlier one while both count as downloaded. */
  lemma {:induction false} SharedBasename(host: string, dir: string, h: int)
    requires '/' !in host && '?' !in host && '#' !in host && 'u' !in host
    requires !UnbalancedBrackets(host) && forall x :: x in host ==> !IsUnsafe(x)
    requires |dir| == 1 && dir[0] != '/' && dir[0] != '?' && dir[0] != '#' && dir[0] != 'u'
    requires !IsUnsafe(dir[0])
    ensures ExtractFilename("https://" + host + ("/" + dir + "/a.png"), h) == Some("a.png")
  {
    var path := "/" + dir + "/a.png";
    SharedBasenameUrl(host, dir, path);
    BasenameOf(dir);
    assert "a.png"[1] == '.';
    FilenameFromBasename(false, path, h);
  }

  /** Such a URL does not name steamusercontent.com and has the path `/<d>/a.png`. */
  lemma {:induction false} SharedBasenameUrl(host: string, dir: string, path: string)
    requires '/' !in host && '?' !in host && '#' !in host && 'u' !in host
    requires !UnbalancedBrackets(host) && forall x :: x in host ==> !IsUnsafe(x)
    requires |dir| == 1 && dir[0] != '/' && dir[0] != '?' && dir[0] != '#' && dir[0] != 'u'
    requires !IsUnsafe(dir[0])
    requires path == "/" + dir + "/a.png"
    ensures !Contains("https://" + host + path, SteamUserContent)
    ensures UrlPath("https://" + host + path) == Some(path)
  {
    var url := "https://" + host + path;
    assert 'u' !in path;
    assert 'u' !in url;
    NoUserContent(url);
    forall x | x in host + path ensures !IsUnsafe(x) {
      assert x in host || x in path;
    }
    HttpsUrlPath(host, path);
    NoParamsAfterDir(dir, path);
  }

  lemma {:induction false} NoParamsAfterDir(dir: string, path: string)
    requires |dir| == 1 && dir[0] != '/'
    requires path == "/" + dir + "/a.png"
    ensures DropParams(path) == path
  {
    assert path[2] == '/' && path[2..] == "/a.png";
    LastIndexOfIs(path, '/', 2);
    assert ';' !in path[2..];
  }

  lemma {:induction false} BasenameOf(dir: string)
    requires |dir| == 1 && dir[0] != '/'
    ensures AfterLast("/" + dir + "/a.png", '/') == "a.png"
  {
    var s := "/" + dir + "/a.png";
    assert s[2] == '/' && s[3..] == "a.png";
    LastIndexOfIs(s, '/', 2);
  }

  /** A text without the letter 'u' cannot hold steamusercontent.com. */
  lemma {:induction false} NoUserContent(s: string)
    requires 'u' !in s
    ensures !Contains(s, SteamUserContent)
  {
    forall i | 0 <= i <= |s| - |SteamUserContent| ensures !OccursAt(s, SteamUserContent, i) {
      assert s[i..i + 20][5] == s[i + 5];
      assert s[i + 5] in s;
    }
  }

  // ---------------------------------------------------------------------------
  // download_image and the download loop

  /** What happened when one image was fetched and written: whether the request got a
      reply, its status, and whether the file write succeeded. */
  datatype Outcome = Outcome(replied: bool, status: int, written: bool)

  /** `download_image` returns True exactly when the request got a reply that
      `raise_for_status` accepts (no status in 400..599) and the file was written. */
  function DownloadImage(o: Outcome): (ok: bool)
    ensures ok <==> o.replied && !(400 <= o.status < 600) && o.written
  {
    if !o.replied then false
    else if 400 <= o.status < 600 then false
    else o.written
  }

  /** The file name `extract_filename_from_url` gives each URL, `hash` standing for
      Python's `hash`; `None` where it raises. */
  function FileNames(hash: string -> int): string -> Option<string> {
    u => ExtractFilename(u, hash(u))
  }

  /** Some URL has no file name: naming it raises, outside `download_image`'s try. */
  predicate Unnameable(urls: set<string>, name: string -> Option<string>) {
    exists u :: u in urls && name(u).None?
  }

  /** The URLs whose download succeeds when each is written under the name `name` gives
      it; `outcome` tells what fetching a URL and writing it under a file name does. */
  function Succeeded(urls: set<string>, outcome: (string, string) -> Outcome,
                     name: string -> Option<string>): set<string>
  {
    set u | u in urls && name(u).Some? && DownloadImage(outcome(u, name(u).value))
  }

  lemma {:induction false} SucceededStep(done: set<string>, u: string, outcome: (string, string) -> Outcome,
                                         name: string -> Option<string>)
    requires u !in done && name(u).Some?
    ensures |Succeeded(done + {u}, outcome, name)|
            == |Succeeded(done, outcome, name)| + (if DownloadImage(outcome(u, name(u).value)) then 1 else 0)
  {
    if DownloadImage(outcome(u, name(u).value)) {
      assert Succeeded(done + {u}, outcome, name) == Succeeded(done, outcome, name) + {u};
    } else {
      assert Succeeded(done + {u}, outcome, name) == Succeeded(done, outcome, name);
    }
  }

  lemma {:induction false} SucceededBound(urls: set<string>, outcome: (string, string) -> Outcome,
                                          name: string -> Option<string>)
    ensures |Succeeded(urls, outcome, name)| <= |urls|
  {
    var s := Succeeded(urls, outcome, name);
    assert urls == s + (urls - s);
    assert s * (urls - s) == {};
  }

  /** The download loop: every URL is tried once, in the set's own order, under the name
      `name` gives it (`FileNames` in the script); a failed download neither stops the
      loop nor counts. A URL without a name stops the loop with no count (`None`): the
      error leaves the loop for the outer handler. */
  method DownloadAll(imageUrls: set<string>, outcome: (string, string) -> Outcome,
                     name: string -> Option<string>)
    returns (downloaded: Option<nat>)
    ensures downloaded.None? <==> Unnameable(imageUrls, name)
    ensures downloaded.Some? ==>
              downloaded.value == |Succeeded(imageUrls, outcome, name)| && downloaded.value <= |imageUrls|
  {
    var count := 0;
    var done: set<string> := {};
    var remaining := imageUrls;
    while remaining != {}
      invariant done + remaining == imageUrls && done !! remaining
      invariant forall v :: v in done ==> name(v).Some?
      invariant count == |Succeeded(done, outcome, name)|
      decreases |remaining|
    {
      var u :| u in remaining;
      var filename := name(u);
      if filename.None? {
        assert u in imageUrls;
        return None;
      }
      SucceededStep(done, u, outcome, name);
      if DownloadImage(outcome(u, filename.value)) {
        count := count + 1;
      }
      done := done + {u};
      remaining := remaining - {u};
    }
    SucceededBound(imageUrls, outcome, name);
    downloaded := Some(count);
  }

  /** The closing summary "downloaded/total". */
  function Summary(downloaded: nat, total: nat): (s: string)
    ensures Split(s, '/') == [NatToString(downloaded), NatToString(total)]
  {
    var d, t := NatToString(downloaded), NatToString(total);
    NatToStringDigits(downloaded);
    NatToStringDigits(total);
    assert '/' !in d && '/' !in t by {
      assert forall i :: 0 <= i < |d| ==> d[i] != '/';
      assert forall i :: 0 <= i < |t| ==> t[i] != '/';
    }
    var s := d + "/" + t;
    SplitAfterPiece(d, t, '/');
    SplitWithout(t, '/');
    s
  }

  /** `scrape_steam_images`: `None` when the page could not be fetched or a collected URL
      makes `extract_filename_from_url` raise (either error is caught by the outer handler
      and no summary is printed), else the summary counts. */
  method ScrapeSteamImages(page: Option<Page>, outcome: (string, string) -> Outcome,
                           hash: string -> int)
    returns (result: Option<(nat, nat)>)
    ensures page.None? ==> result.None?
    ensures page.Some? ==> (result.None? <==> Unnameable(PageUrls(page.value), FileNames(hash)))
    ensures result.Some? ==>
              && page.Some?
              && result.value.1 == |PageUrls(page.value)|
              && result.value.0 == |Succeeded(PageUrls(page.value), outcome, FileNames(hash))|
              && result.value.0 <= result.value.1
  {
    if page.None? {
      return None;
    }
    var imageUrls := CollectImageUrls(page.value);
    var downloaded := DownloadAll(imageUrls, outcome, FileNames(hash));
    if downloaded.None? {
      return None;
    }
    result := Some((downloaded.value, |imageUrls|));
  }
}
