/** The product-link parsing service: validates the request, picks the
    marketplace from the link's host, and turns the link plus the fetched page
    into a product draft (name, article number, price, image, link).

    The page fetch is an input: `page` is `Some(html)` for the decoded page and
    `None` when fetching or decoding raised. Each marketplace's two image
    searches are an opaque input: `findImage(mp)` gives the first image link
    they find in a page, if any. */
module ParseProduct {
  import opened Wrappers
  import opened Text
  import opened Marketplaces
  import opened Http
  import Seqs

  datatype Draft = Draft(
    name: string,
    articleNumber: string,
    marketplace: Marketplace,
    currentPrice: nat,
    imageUrl: string,
    productUrl: string)

  const DefaultImage: string := "https://v3b.fal.media/files/b/tiger/VE2W3iEsEdBTX4cu_Tmko_output.png"
  const MaxNameLength: nat := 500
  const Unknown: string := "unknown"

  const ProductMarker: string := "/product/"
  const CatalogMarker: string := "/catalog/"
  const TitleOpen: string := "<title>"
  const TitleClose: string := "</title>"
  const PriceKey: string := "\"price\""

  // ---------------------------------------------------------------------------
  // The host part of a link (urllib.parse.urlsplit(url).netloc)

  /** Characters urlsplit strips from the front of a link: C0 controls and space. */
  predicate IsControlOrSpace(c: char) {
    c <= ' '
  }

  predicate IsAsciiLetter(c: char) {
    ('a' <= c <= 'z') || ('A' <= c <= 'Z')
  }

  predicate IsSchemeChar(c: char) {
    IsAsciiLetter(c) || IsDigit(c) || c == '+' || c == '-' || c == '.'
  }

  predicate NotHostEnd(c: char) {
    c != '/' && c != '?' && c != '#'
  }

  predicate NotUnsafe(c: char) {
    c != '\t' && c != '\r' && c != '\n'
  }

  /** The link after urlsplit's clean-up: leading controls and spaces removed,
      then every tab, carriage return and line feed removed. */
  function Sanitize(url: string): (r: string)
    ensures forall m :: 0 <= m < |r| ==> NotUnsafe(r[m])
    ensures |r| > 0 ==> !IsControlOrSpace(r[0])
    ensures |r| <= |url|
  {
    var rest := url[SpanEnd(url, 0, IsControlOrSpace)..];
    if |rest| > 0 then
      Seqs.FilterKeepsHead(rest, NotUnsafe);
      Seqs.Filter(rest, NotUnsafe)
    else []
  }

  /** The clean-up drops exactly the leading run of controls and spaces and
      then every tab, carriage return and line feed: what survives is the rest
      of the link, in order, with its line breaks taken out. */
  lemma SanitizeDropsLead(lead: string, u: string)
    requires forall m :: 0 <= m < |lead| ==> IsControlOrSpace(lead[m])
    requires |u| == 0 || !IsControlOrSpace(u[0])
    ensures Sanitize(lead + u) == Seqs.Filter(u, NotUnsafe)
  {
    var url := lead + u;
    forall m | 0 <= m < |lead| ensures IsControlOrSpace(url[m]) {
      assert url[m] == lead[m];
    }
    if |lead| < |url| {
      assert url[|lead|] == u[0];
    }
    SpanEndIsRunEnd(url, 0, |lead|, IsControlOrSpace);
    assert url[|lead|..] == u;
  }

  /** A link that starts with a visible character and holds no tab, carriage
      return or line feed passes the clean-up unchanged. */
  lemma SanitizeKeepsCleanLink(url: string)
    requires |url| == 0 || !IsControlOrSpace(url[0])
    requires forall m :: 0 <= m < |url| ==> NotUnsafe(url[m])
    ensures Sanitize(url) == url
  {
    assert [] + url == url;
    SanitizeDropsLead([], url);
    Seqs.FilterAll(url, NotUnsafe);
  }

  /** Cleaning up a cleaned-up link changes nothing. */
  lemma SanitizeIdempotent(url: string)
    ensures Sanitize(Sanitize(url)) == Sanitize(url)
  {
    SanitizeKeepsCleanLink(Sanitize(url));
  }

  /** Whether position `p` of `u` holds a ':'. */
  function ColonAt(u: string): nat -> bool {
    (p: nat) => p < |u| && u[p] == ':'
  }

  /** Position `c` of `u` is the ':' that ends a scheme name: a letter
      followed by scheme characters, so no earlier ':'. */
  predicate SchemeEnd(u: string, c: int) {
    && 0 < c < |u| && u[c] == ':'
    && IsAsciiLetter(u[0])
    && forall m :: 0 <= m < c ==> IsSchemeChar(u[m])
  }

  /** What follows the scheme: the text after the first ':' when everything
      before it is a scheme name starting with a letter, otherwise the text
      unchanged. */
  function AfterScheme(u: string): (r: string)
    ensures |r| <= |u| && r == u[|u| - |r|..]
    ensures forall c :: SchemeEnd(u, c) ==> r == u[c + 1..]
    ensures (forall c :: !SchemeEnd(u, c)) ==> r == u
  {
    match FindFirst(ColonAt(u), 0, |u|)
    case Some(i) =>
      if i > 0 && IsAsciiLetter(u[0]) && forall m :: 0 <= m < i ==> IsSchemeChar(u[m]) then
        assert SchemeEnd(u, i);
        SchemeEndUnique(u, i);
        u[i + 1..]
      else
        NoSchemeEndBefore(u, i);
        u
    case None =>
      forall c | 0 < c < |u| ensures !SchemeEnd(u, c) {
        assert !ColonAt(u)(c);
      }
      u
  }

  /** A scheme-ending ':' is the only one. */
  lemma SchemeEndUnique(u: string, i: int)
    requires SchemeEnd(u, i)
    ensures forall c :: SchemeEnd(u, c) ==> c == i
  {
  }

  /** When the first ':' does not end a scheme name, no ':' does. */
  lemma NoSchemeEndBefore(u: string, i: nat)
    requires i < |u| && ColonAt(u)(i)
    requires forall p: nat :: p < i ==> !ColonAt(u)(p)
    requires !SchemeEnd(u, i)
    ensures forall c :: !SchemeEnd(u, c)
  {
    forall c | 0 <= c < i ensures !SchemeEnd(u, c) {
      assert !ColonAt(u)(c);
    }
  }

  /** `urlsplit(url).netloc`: after "//", up to the first '/', '?' or '#';
      empty when there is no "//". `None` when urlsplit raises because the
      host has an unmatched square bracket. */
  function Netloc(url: string): (r: Option<string>)
    ensures r.Some? ==> forall m :: 0 <= m < |r.value| ==> NotHostEnd(r.value[m]) && NotUnsafe(r.value[m])
  {
    var clean := Sanitize(url);
    var u := AfterScheme(clean);
    SuffixIsSafe(clean, u);
    Authority(u)
  }

  /** The host part of what follows the scheme. */
  function Authority(u: string): (r: Option<string>)
    requires forall m :: 0 <= m < |u| ==> NotUnsafe(u[m])
    ensures r.Some? ==> forall m :: 0 <= m < |r.value| ==> NotHostEnd(r.value[m]) && NotUnsafe(r.value[m])
  {
    if StartsAt(u, 0, "//") then
      var e := SpanEnd(u, 2, NotHostEnd);
      HostChars(u, e);
      var host := u[2..e];
      var open := Contains(host, "[");
      var close := Contains(host, "]");
      if open != close then None else Some(host)
    else Some("")
  }

  /** A suffix of a text without line breaks has none either. */
  lemma SuffixIsSafe(s: string, u: string)
    requires forall m :: 0 <= m < |s| ==> NotUnsafe(s[m])
    requires |u| <= |s| && u == s[|s| - |u|..]
    ensures forall m :: 0 <= m < |u| ==> NotUnsafe(u[m])
  {
    forall m | 0 <= m < |u| ensures NotUnsafe(u[m]) {
      assert u[m] == s[|s| - |u| + m];
    }
  }

  /** The characters after "//" up to the end of the host run are neither
      delimiters nor line breaks. */
  lemma HostChars(u: string, e: nat)
    requires 2 <= e <= |u|
    requires forall m :: 2 <= m < e ==> NotHostEnd(u[m])
    requires forall m :: 0 <= m < |u| ==> NotUnsafe(u[m])
    ensures forall m :: 0 <= m < e - 2 ==> NotHostEnd(u[2..e][m]) && NotUnsafe(u[2..e][m])
  {
    forall m | 0 <= m < e - 2 ensures NotHostEnd(u[2..e][m]) && NotUnsafe(u[2..e][m]) {
      assert u[2..e][m] == u[m + 2];
    }
  }

  /** For a link written lead scheme "://" host rest, where the lead is
      controls and spaces, the scheme is a letter followed by scheme
      characters, the host holds no '/', '?' or '#', and the rest is empty or
      starts with '/', '?' or '#': the host part is the host with its tabs,
      carriage returns and line feeds taken out, unless that has an unmatched
      square bracket, in which case urlsplit raises. The dispatch then reads
      that host, lower-cased. */
  lemma NetlocOfLink(lead: string, scheme: string, host: string, rest: string)
    requires forall m :: 0 <= m < |lead| ==> IsControlOrSpace(lead[m])
    requires |scheme| > 0 && IsAsciiLetter(scheme[0])
    requires forall m :: 0 <= m < |scheme| ==> IsSchemeChar(scheme[m])
    requires forall m :: 0 <= m < |host| ==> NotHostEnd(host[m])
    requires |rest| == 0 || !NotHostEnd(rest[0])
    ensures var h := Seqs.Filter(host, NotUnsafe);
            var balanced := Contains(h, "[") == Contains(h, "]");
            Netloc(lead + scheme + "://" + host + rest) == if balanced then Some(h) else None
    ensures var h := Seqs.Filter(host, NotUnsafe);
            var balanced := Contains(h, "[") == Contains(h, "]");
            Dispatch(lead + scheme + "://" + host + rest) == if balanced then MarketplaceOf(LowerAscii(h)) else None
  {
    HostOfLink(lead, scheme, host, rest);
  }

  /** A link without a scheme, written lead "//" host rest, has the same host
      part: the host with its line breaks taken out, or a raise on an
      unmatched square bracket. */
  lemma NetlocOfSchemelessLink(lead: string, host: string, rest: string)
    requires forall m :: 0 <= m < |lead| ==> IsControlOrSpace(lead[m])
    requires forall m :: 0 <= m < |host| ==> NotHostEnd(host[m])
    requires |rest| == 0 || !NotHostEnd(rest[0])
    ensures var h := Seqs.Filter(host, NotUnsafe);
            var balanced := Contains(h, "[") == Contains(h, "]");
            Netloc(lead + "//" + host + rest) == if balanced then Some(h) else None
  {
    var h := Seqs.Filter(host, NotUnsafe);
    var tail := Seqs.Filter(rest, NotUnsafe);
    CleanedSchemelessLink(lead, host, rest);
    SlashesHaveNoScheme("//" + h + tail);
    FilteredParts(host, rest);
    HostRun(h, tail);
  }

  /** Text starting with '/' has no scheme to split off. */
  lemma SlashesHaveNoScheme(u: string)
    requires |u| > 0 && u[0] == '/'
    ensures AfterScheme(u) == u
  {
    assert !IsAsciiLetter(u[0]);
  }

  /** The clean-up of a link without a scheme: the lead goes, "//" stays, and
      the line breaks of host and rest are taken out. */
  lemma CleanedSchemelessLink(lead: string, host: string, rest: string)
    requires forall m :: 0 <= m < |lead| ==> IsControlOrSpace(lead[m])
    ensures Sanitize(lead + "//" + host + rest)
            == "//" + Seqs.Filter(host, NotUnsafe) + Seqs.Filter(rest, NotUnsafe)
  {
    var link := "//" + host + rest;
    assert lead + "//" + host + rest == lead + link;
    assert link[0] == '/';
    SanitizeDropsLead(lead, link);
    FilteredSchemelessLink(host, rest);
  }

  /** Taking the line breaks out of "//" host rest leaves the slashes alone. */
  lemma FilteredSchemelessLink(host: string, rest: string)
    ensures Seqs.Filter("//" + host + rest, NotUnsafe)
            == "//" + Seqs.Filter(host, NotUnsafe) + Seqs.Filter(rest, NotUnsafe)
  {
    Seqs.FilterConcat("//" + host, rest, NotUnsafe);
    Seqs.FilterConcat("//", host, NotUnsafe);
    assert forall m :: 0 <= m < 2 ==> NotUnsafe("//"[m]);
    Seqs.FilterAll("//", NotUnsafe);
  }

  /** The host-part half of `NetlocOfLink`. */
  lemma HostOfLink(lead: string, scheme: string, host: string, rest: string)
    requires forall m :: 0 <= m < |lead| ==> IsControlOrSpace(lead[m])
    requires |scheme| > 0 && IsAsciiLetter(scheme[0])
    requires forall m :: 0 <= m < |scheme| ==> IsSchemeChar(scheme[m])
    requires forall m :: 0 <= m < |host| ==> NotHostEnd(host[m])
    requires |rest| == 0 || !NotHostEnd(rest[0])
    ensures var h := Seqs.Filter(host, NotUnsafe);
            var balanced := Contains(h, "[") == Contains(h, "]");
            Netloc(lead + scheme + "://" + host + rest) == if balanced then Some(h) else None
  {
    var h := Seqs.Filter(host, NotUnsafe);
    var tail := Seqs.Filter(rest, NotUnsafe);
    CleanedLink(lead, scheme, host, rest);
    SchemeColon(scheme, "//" + h + tail);
    FilteredParts(host, rest);
    HostRun(h, tail);
  }

  /** Taking the line breaks out keeps the host free of '/', '?' and '#' and
      keeps the rest's leading '/', '?' or '#' in front. */
  lemma FilteredParts(host: string, rest: string)
    requires forall m :: 0 <= m < |host| ==> NotHostEnd(host[m])
    requires |rest| == 0 || !NotHostEnd(rest[0])
    ensures var h := Seqs.Filter(host, NotUnsafe);
            forall m :: 0 <= m < |h| ==> NotHostEnd(h[m])
    ensures var tail := Seqs.Filter(rest, NotUnsafe);
            |tail| == 0 || !NotHostEnd(tail[0])
  {
    var h := Seqs.Filter(host, NotUnsafe);
    forall m | 0 <= m < |h| ensures NotHostEnd(h[m]) {
      assert h[m] in host;
    }
    if |rest| > 0 {
      Seqs.FilterKeepsHead(rest, NotUnsafe);
    }
  }

  /** The clean-up of such a link: the lead goes, the scheme and "://" stay,
      and the line breaks of host and rest are taken out. */
  lemma CleanedLink(lead: string, scheme: string, host: string, rest: string)
    requires forall m :: 0 <= m < |lead| ==> IsControlOrSpace(lead[m])
    requires |scheme| > 0 && IsAsciiLetter(scheme[0])
    requires forall m :: 0 <= m < |scheme| ==> IsSchemeChar(scheme[m])
    ensures Sanitize(lead + scheme + "://" + host + rest)
            == scheme + ":" + ("//" + Seqs.Filter(host, NotUnsafe) + Seqs.Filter(rest, NotUnsafe))
  {
    var link := scheme + "://" + host + rest;
    assert lead + scheme + "://" + host + rest == lead + link;
    assert link[0] == scheme[0];
    SanitizeDropsLead(lead, link);
    FilteredLink(scheme, host, rest);
  }

  /** Taking the line breaks out of such a link leaves the scheme and "://"
      alone and takes them out of host and rest. */
  lemma FilteredLink(scheme: string, host: string, rest: string)
    requires forall m :: 0 <= m < |scheme| ==> IsSchemeChar(scheme[m])
    ensures Seqs.Filter(scheme + "://" + host + rest, NotUnsafe)
            == scheme + ":" + ("//" + Seqs.Filter(host, NotUnsafe) + Seqs.Filter(rest, NotUnsafe))
  {
    var h := Seqs.Filter(host, NotUnsafe);
    var t := Seqs.Filter(rest, NotUnsafe);
    Seqs.FilterConcat(scheme + "://" + host, rest, NotUnsafe);
    Seqs.FilterConcat(scheme + "://", host, NotUnsafe);
    Seqs.FilterConcat(scheme, "://", NotUnsafe);
    SchemeIsClean(scheme);
    Seqs.FilterAll(scheme, NotUnsafe);
    assert forall m :: 0 <= m < 3 ==> NotUnsafe("://"[m]);
    Seqs.FilterAll("://", NotUnsafe);
    LinkParts(scheme, h, t);
  }

  /** The link splits at the scheme's colon. */
  lemma LinkParts(scheme: string, host: string, rest: string)
    ensures scheme + "://" + host + rest == scheme + ":" + ("//" + host + rest)
  {
  }

  /** Scheme characters are all safe. */
  lemma SchemeIsClean(scheme: string)
    requires forall m :: 0 <= m < |scheme| ==> IsSchemeChar(scheme[m])
    ensures forall m :: 0 <= m < |scheme| ==> NotUnsafe(scheme[m])
  {
    forall m | 0 <= m < |scheme| ensures NotUnsafe(scheme[m]) {
      assert IsSchemeChar(scheme[m]);
    }
  }

  /** A scheme name, a ':' and the rest: the scheme is split off at the colon. */
  lemma SchemeColon(scheme: string, tail: string)
    requires |scheme| > 0 && IsAsciiLetter(scheme[0])
    requires forall m :: 0 <= m < |scheme| ==> IsSchemeChar(scheme[m])
    ensures AfterScheme(scheme + ":" + tail) == tail
  {
    var u := scheme + ":" + tail;
    var n := |scheme|;
    FirstColon(scheme, tail);
    assert forall m :: 0 <= m < n ==> u[m] == scheme[m];
    assert u[n + 1..] == tail;
  }

  /** The first ':' of scheme ":" tail is the one after the scheme. */
  lemma FirstColon(scheme: string, tail: string)
    requires forall m :: 0 <= m < |scheme| ==> IsSchemeChar(scheme[m])
    ensures var u := scheme + ":" + tail;
            FindFirst(ColonAt(u), 0, |u|) == Some(|scheme|)
  {
    var u := scheme + ":" + tail;
    var n := |scheme|;
    assert ColonAt(u)(n);
    forall p: nat | p < n ensures !ColonAt(u)(p) {
      assert u[p] == scheme[p];
    }
    var found := FindFirst(ColonAt(u), 0, |u|);
    assert found == Some(n);
  }

  /** After "//", the host runs up to the first '/', '?' or '#'. */
  lemma HostRun(host: string, rest: string)
    requires forall m :: 0 <= m < |host| ==> NotHostEnd(host[m])
    requires |rest| == 0 || !NotHostEnd(rest[0])
    ensures var u := "//" + host + rest;
            StartsAt(u, 0, "//") && SpanEnd(u, 2, NotHostEnd) == 2 + |host| && u[2..2 + |host|] == host
  {
    var u := "//" + host + rest;
    assert u[..2] == "//";
    forall m | 2 <= m < 2 + |host| ensures NotHostEnd(u[m]) {
      assert u[m] == host[m - 2];
    }
    if 2 + |host| < |u| {
      assert u[2 + |host|] == rest[0];
    }
    SpanEndIsRunEnd(u, 2, 2 + |host|, NotHostEnd);
    assert u[2..2 + |host|] == host;
  }

  /** The dispatch on the lower-cased host: 'ozon.ru' is checked first, then
      'wildberries.ru' or 'wb.ru'; anything else is unsupported. */
  function MarketplaceOf(host: string): (r: Option<Marketplace>)
    ensures r == Some(Ozon) <==> Contains(host, "ozon.ru")
    ensures r == Some(Wildberries) <==>
              !Contains(host, "ozon.ru") && (Contains(host, "wildberries.ru") || Contains(host, "wb.ru"))
  {
    if Contains(host, "ozon.ru") then Some(Ozon)
    else if Contains(host, "wildberries.ru") || Contains(host, "wb.ru") then Some(Wildberries)
    else None
  }

  // ---------------------------------------------------------------------------
  // Ozon article number: first match of /product/[^/]+-(\d+)

  /** `url[k]` is a '-' followed by a digit. */
  predicate DashBeforeDigit(url: string, k: int) {
    0 <= k && k + 1 < |url| && url[k] == '-' && IsDigit(url[k + 1])
  }

  predicate NotSlash(c: char) {
    c != '/'
  }

  /** A match of /product/[^/]+-\d that starts at `i` with its '-' at `k`. */
  predicate OzonMatch(url: string, i: int, k: int) {
    && StartsAt(url, i, ProductMarker)
    && i + 9 < k
    && DashBeforeDigit(url, k)
    && forall m :: i + 9 <= m < k ==> NotSlash(url[m])
  }

  /** The match the regular-expression engine reports: the leftmost start,
      and for it the rightmost '-' (the greedy `[^/]+` gives back as little
      as it can). */
  ghost predicate FirstOzonMatch(url: string, i: int, k: int) {
    && OzonMatch(url, i, k)
    && forall i', k' :: OzonMatch(url, i', k') ==> i < i' || (i == i' && k' <= k)
  }

  /** Every '-' of a match at `i` lies inside the slash-free run after the marker. */
  lemma OzonMatchInSegment(url: string, i: nat, k: int)
    requires OzonMatch(url, i, k)
    ensures k < SpanEnd(url, i + 9, NotSlash)
  {
    var e := SpanEnd(url, i + 9, NotSlash);
    assert forall m :: i + 9 <= m <= k ==> NotSlash(url[m]);
    assert k < e;
  }

  /** The '-' position of the match starting at `i`, if there is one. */
  function OzonDash(url: string, i: nat): (r: Option<nat>)
    ensures r.Some? ==> OzonMatch(url, i, r.value)
    ensures r.Some? ==> forall k :: OzonMatch(url, i, k) ==> k <= r.value
    ensures r.None? ==> forall k :: !OzonMatch(url, i, k)
  {
    if !StartsAt(url, i, ProductMarker) then None
    else
      var e := SpanEnd(url, i + 9, NotSlash);
      var dash := (k: nat) => DashBeforeDigit(url, k);
      var found := FindLast(dash, i + 10, e);
      forall k | OzonMatch(url, i, k) ensures found.Some? && k <= found.value {
        OzonMatchInSegment(url, i, k);
        assert dash(k);
      }
      found
  }

  /** The Ozon article number: the digits after the '-' of the first match,
      or 'unknown' exactly when the link has no match. */
  function OzonArticle(url: string): (r: string)
    ensures r == Unknown <==> forall i, k :: !OzonMatch(url, i, k)
    ensures r != Unknown ==> |r| > 0 && AllDigits(r)
    ensures r != Unknown ==> exists i, k :: FirstOzonMatch(url, i, k) && r == DigitRun(url, k + 1)
  {
    var at := (i: nat) => OzonDash(url, i).Some?;
    var first := FindFirst(at, 0, |url|);
    if first.None? then
      forall i, k ensures !OzonMatch(url, i, k) {
        if 0 <= i < |url| {
          assert !at(i);
        }
      }
      Unknown
    else
      var i := first.value;
      var k := OzonDash(url, i).value;
      forall i', k' | 0 <= i' < i ensures !OzonMatch(url, i', k') {
        assert !at(i');
      }
      assert FirstOzonMatch(url, i, k);
      var r := DigitRun(url, k + 1);
      assert r[0] != Unknown[0];
      r
  }

  // ---------------------------------------------------------------------------
  // Wildberries article number: first match of /catalog/(\d+)/

  /** A match of /catalog/(\d+)/ starting at `i` whose closing '/' is at `j`. */
  predicate WbMatch(url: string, i: int, j: int) {
    && StartsAt(url, i, CatalogMarker)
    && i + 9 < j < |url|
    && (forall m :: i + 9 <= m < j ==> IsDigit(url[m]))
    && url[j] == '/'
  }

  /** The closing-slash position of the match starting at `i`, if any. */
  function WbEnd(url: string, i: nat): (r: Option<nat>)
    ensures r.Some? ==> WbMatch(url, i, r.value)
    ensures r.None? ==> forall j :: !WbMatch(url, i, j)
  {
    if !StartsAt(url, i, CatalogMarker) then None
    else
      var e := SpanEnd(url, i + 9, IsDigit);
      assert forall j :: WbMatch(url, i, j) ==> j == e;
      if i + 9 < e < |url| && url[e] == '/' then Some(e) else None
  }

  /** The Wildberries article number: the digits of the first match, or
      'unknown' exactly when there is none (a number not followed by '/' does
      not match). */
  function WbArticle(url: string): (r: string)
    ensures r == Unknown <==> forall i, j :: !WbMatch(url, i, j)
    ensures r != Unknown ==> |r| > 0 && AllDigits(r)
    ensures r != Unknown ==> exists i, j :: WbMatch(url, i, j) && r == url[i + 9..j]
                                 && forall i', j' :: WbMatch(url, i', j') ==> i <= i'
  {
    var at := (i: nat) => WbEnd(url, i).Some?;
    var first := FindFirst(at, 0, |url|);
    if first.None? then
      forall i, j ensures !WbMatch(url, i, j) {
        if 0 <= i < |url| {
          assert !at(i);
        }
      }
      Unknown
    else
      var i := first.value;
      var j := WbEnd(url, i).value;
      forall i', j' | 0 <= i' < i ensures !WbMatch(url, i', j') {
        assert !at(i');
      }
      var r := url[i + 9..j];
      assert r[0] != Unknown[0];
      r
  }

  /** The article number for the chosen marketplace. */
  function Article(mp: Marketplace, url: string): (r: string)
    ensures r == Unknown || (|r| > 0 && AllDigits(r))
  {
    match mp
    case Ozon => OzonArticle(url)
    case Wildberries => WbArticle(url)
  }

  // ---------------------------------------------------------------------------
  // Page title: first match of <title>([^<]+)</title>

  predicate NotOpenAngle(c: char) {
    c != '<'
  }

  /** A match starting at `i` whose "</title>" starts at `j`. */
  predicate TitleMatch(html: string, i: int, j: int) {
    && StartsAt(html, i, TitleOpen)
    && i + 7 < j
    && StartsAt(html, j, TitleClose)
    && forall m :: i + 7 <= m < j ==> NotOpenAngle(html[m])
  }

  function TitleEnd(html: string, i: nat): (r: Option<nat>)
    ensures r.Some? ==> TitleMatch(html, i, r.value)
    ensures r.None? ==> forall j :: !TitleMatch(html, i, j)
  {
    if !StartsAt(html, i, TitleOpen) then None
    else
      var e := SpanEnd(html, i + 7, NotOpenAngle);
      assert forall j :: TitleMatch(html, i, j) ==> j == e by {
        forall j | TitleMatch(html, i, j) ensures j == e {
          assert html[j] == TitleClose[0];
        }
      }
      if i + 7 < e && StartsAt(html, e, TitleClose) then Some(e) else None
  }

  /** The captured title text of the first match, if any. */
  function Title(html: string): (r: Option<string>)
    ensures r.None? <==> forall i, j :: !TitleMatch(html, i, j)
    ensures r.Some? ==> exists i, j :: TitleMatch(html, i, j) && r.value == html[i + 7..j]
                            && forall i', j' :: TitleMatch(html, i', j') ==> i <= i'
  {
    var at := (i: nat) => TitleEnd(html, i).Some?;
    var first := FindFirst(at, 0, |html|);
    if first.None? then
      forall i, j ensures !TitleMatch(html, i, j) {
        if 0 <= i < |html| {
          assert !at(i);
        }
      }
      None
    else
      var i := first.value;
      var j := TitleEnd(html, i).value;
      forall i', j' | 0 <= i' < i ensures !TitleMatch(html, i', j') {
        assert !at(i');
      }
      Some(html[i + 7..j])
  }

  // ---------------------------------------------------------------------------
  // Price: first match of "price"[:\s]*(\d+), else of (\d+)\s*₽, else 0

  predicate IsPriceGap(c: char) {
    c == ':' || IsSpace(c)
  }

  /** A match of "price"[:\s]*\d starting at `i` whose first digit is at `j`. */
  predicate KeyedPriceMatch(html: string, i: int, j: int) {
    && StartsAt(html, i, PriceKey)
    && i + 7 <= j < |html|
    && IsDigit(html[j])
    && forall m :: i + 7 <= m < j ==> IsPriceGap(html[m])
  }

  function KeyedPriceDigits(html: string, i: nat): (r: Option<nat>)
    ensures r.Some? ==> KeyedPriceMatch(html, i, r.value)
    ensures r.None? ==> forall j :: !KeyedPriceMatch(html, i, j)
  {
    if !StartsAt(html, i, PriceKey) then None
    else
      var e := SpanEnd(html, i + 7, IsPriceGap);
      assert forall j :: KeyedPriceMatch(html, i, j) ==> j == e;
      if e < |html| && IsDigit(html[e]) then Some(e) else None
  }

  /** The digits captured by the first "price" match, if any. */
  function KeyedPrice(html: string): (r: Option<string>)
    ensures r.None? <==> forall i, j :: !KeyedPriceMatch(html, i, j)
    ensures r.Some? ==> |r.value| > 0 && AllDigits(r.value)
    ensures r.Some? ==> exists i, j :: KeyedPriceMatch(html, i, j) && r.value == DigitRun(html, j)
                            && forall i', j' :: KeyedPriceMatch(html, i', j') ==> i <= i'
  {
    var at := (i: nat) => KeyedPriceDigits(html, i).Some?;
    var first := FindFirst(at, 0, |html|);
    if first.None? then
      forall i, j ensures !KeyedPriceMatch(html, i, j) {
        if 0 <= i < |html| {
          assert !at(i);
        }
      }
      None
    else
      var i := first.value;
      var j := KeyedPriceDigits(html, i).value;
      forall i', j' | 0 <= i' < i ensures !KeyedPriceMatch(html, i', j') {
        assert !at(i');
      }
      Some(DigitRun(html, j))
  }

  /** A match of (\d+)\s*₽: digits in [i, j), whitespace in [j, k), '₽' at `k`. */
  predicate RublePriceMatch(html: string, i: int, j: int, k: int) {
    && 0 <= i < j <= k < |html|
    && (forall m :: i <= m < j ==> IsDigit(html[m]))
    && (forall m :: j <= m < k ==> IsSpace(html[m]))
    && html[k] == '₽'
  }

  /** The end of the digit group of the match starting at `i`, if any. */
  function RubleDigitsEnd(html: string, i: nat): (r: Option<nat>)
    ensures r.Some? ==> exists k :: RublePriceMatch(html, i, r.value, k)
    ensures r.None? ==> forall j, k :: !RublePriceMatch(html, i, j, k)
  {
    if i >= |html| then None
    else
      var j := SpanEnd(html, i, IsDigit);
      var k := SpanEnd(html, j, IsSpace);
      forall j', k' | RublePriceMatch(html, i, j', k') ensures j' == j && k' == k {
        assert !IsDigit(html[j']);
        assert j' == j;
        assert !IsSpace(html[k']);
      }
      if i < j && k < |html| && html[k] == '₽' then
        assert RublePriceMatch(html, i, j, k);
        Some(j)
      else None
  }

  /** The digits captured by the first '₽' match, if any. */
  function RublePrice(html: string): (r: Option<string>)
    ensures r.None? <==> forall i, j, k :: !RublePriceMatch(html, i, j, k)
    ensures r.Some? ==> |r.value| > 0 && AllDigits(r.value)
    ensures r.Some? ==> exists i, j, k :: RublePriceMatch(html, i, j, k) && r.value == html[i..j]
                            && forall i', j', k' :: RublePriceMatch(html, i', j', k') ==> i <= i'
  {
    var at := (i: nat) => RubleDigitsEnd(html, i).Some?;
    var first := FindFirst(at, 0, |html|);
    if first.None? then
      forall i, j, k ensures !RublePriceMatch(html, i, j, k) {
        if 0 <= i < |html| {
          assert !at(i);
        }
      }
      None
    else
      var i := first.value;
      var j := RubleDigitsEnd(html, i).value;
      forall i', j', k' | 0 <= i' < i ensures !RublePriceMatch(html, i', j', k') {
        assert !at(i');
      }
      RubleDigits(html, i, j);
      Some(html[i..j])
  }

  /** The digit group of a '₽' match is a non-empty run of digits. */
  lemma RubleDigits(html: string, i: int, j: int)
    requires exists k :: RublePriceMatch(html, i, j, k)
    ensures 0 <= i < j <= |html| && |html[i..j]| > 0 && AllDigits(html[i..j])
  {
    var k :| RublePriceMatch(html, i, j, k);
    var r := html[i..j];
    forall m | 0 <= m < |r| ensures IsDigit(r[m]) {
      assert r[m] == html[i + m];
    }
  }

  /** The price read from a page: `int()` of the digits of the "price"
      match, else of the '₽' match, else 0. `None` when `int()` raises on a
      numeral longer than Python's digit limit. */
  function PagePrice(html: string): (r: Option<nat>)
    ensures KeyedPrice(html).Some? ==>
              && (r.None? <==> |KeyedPrice(html).value| > MaxIntDigits)
              && (r.Some? ==> NatToString(r.value) == DropLeadingZeros(KeyedPrice(html).value))
    ensures KeyedPrice(html).None? && RublePrice(html).Some? ==>
              && (r.None? <==> |RublePrice(html).value| > MaxIntDigits)
              && (r.Some? ==> NatToString(r.value) == DropLeadingZeros(RublePrice(html).value))
    ensures (forall i, j :: !KeyedPriceMatch(html, i, j)) && (forall i, j, k :: !RublePriceMatch(html, i, j, k)) ==> r == Some(0)
  {
    match KeyedPrice(html)
    case Some(d) => IntOfDigits(d)
    case None =>
      match RublePrice(html)
      case Some(d) => IntOfDigits(d)
      case None => Some(0)
  }

  // ---------------------------------------------------------------------------
  // Name

  function Label(mp: Marketplace): string {
    match mp
    case Ozon => "Ozon"
    case Wildberries => "Wildberries"
  }

  /** "Товар Ozon {article}" / "Товар Wildberries {article}". */
  function FallbackName(mp: Marketplace, article: string): (r: string)
    ensures |r| > 0 && !IsSpace(r[0])
  {
    "Товар " + Label(mp) + " " + article
  }

  /** The two marketplace suffixes removed from a page title, in order. */
  function Suffixes(mp: Marketplace): (string, string) {
    match mp
    case Ozon => (" — купить на OZON", " | OZON")
    case Wildberries => (" купить в интернет магазине Wildberries", " / Wildberries")
  }

  /** The name read from a page: the stripped title, or the fallback name when
      the page has no title, with both suffixes removed and then stripped. */
  function PageName(mp: Marketplace, article: string, html: string): (r: string)
    ensures |r| > 0 ==> !IsSpace(r[0]) && !IsSpace(r[|r| - 1])
  {
    var title := match Title(html) case Some(t) => Strip(t) case None => FallbackName(mp, article);
    var (first, second) := Suffixes(mp);
    Strip(RemoveAll(RemoveAll(title, first), second))
  }

  /** The fallback name avoids every character that is neither a digit nor
      in its fixed words. */
  lemma FallbackAvoids(mp: Marketplace, article: string, c: char)
    requires article == Unknown || AllDigits(article)
    requires !IsDigit(c) && c != ' ' && c !in "Товар" && c !in Label(mp) && c !in Unknown
    ensures forall m :: 0 <= m < |FallbackName(mp, article)| ==> FallbackName(mp, article)[m] != c
  {
    var w := "Товар";
    var l := Label(mp);
    var f := FallbackName(mp, article);
    assert f == w + " " + l + " " + article;
    forall m | 0 <= m < |f| ensures f[m] != c {
      if m < |w| {
        assert f[m] == w[m];
      } else if m == |w| {
        assert f[m] == ' ';
      } else if m < |w| + 1 + |l| {
        assert f[m] == l[m - |w| - 1];
      } else if m == |w| + 1 + |l| {
        assert f[m] == ' ';
      } else if article == Unknown {
        assert f[m] == Unknown[m - |w| - 2 - |l|];
      } else {
        assert f[m] == article[m - |w| - 2 - |l|];
      }
    }
  }

  /** Neither marketplace suffix occurs in a fallback name: each holds a
      character ('—', '|', 'к', '/') that the fallback name lacks. */
  lemma FallbackHasNoSuffix(mp: Marketplace, article: string)
    requires article == Unknown || AllDigits(article)
    ensures forall i :: !StartsAt(FallbackName(mp, article), i, Suffixes(mp).0)
    ensures forall i :: !StartsAt(FallbackName(mp, article), i, Suffixes(mp).1)
  {
    FallbackLacksFirst(mp, article);
    FallbackLacksSecond(mp, article);
  }

  lemma FallbackLacksFirst(mp: Marketplace, article: string)
    requires article == Unknown || AllDigits(article)
    ensures forall i :: !StartsAt(FallbackName(mp, article), i, Suffixes(mp).0)
  {
    match mp
    case Ozon => OzonFallbackLacks(article, Suffixes(mp).0, '—');
    case Wildberries => WbFallbackLacks(article, Suffixes(mp).0, 'к');
  }

  lemma FallbackLacksSecond(mp: Marketplace, article: string)
    requires article == Unknown || AllDigits(article)
    ensures forall i :: !StartsAt(FallbackName(mp, article), i, Suffixes(mp).1)
  {
    match mp
    case Ozon => OzonFallbackLacks(article, Suffixes(mp).1, '|');
    case Wildberries => WbFallbackLacks(article, Suffixes(mp).1, '/');
  }

  lemma OzonFallbackLacks(article: string, pat: string, c: char)
    requires article == Unknown || AllDigits(article)
    requires |pat| > 1 && pat[1] == c
    requires c == '—' || c == '|'
    ensures forall i :: !StartsAt(FallbackName(Ozon, article), i, pat)
  {
    FallbackLacks(Ozon, article, pat, c);
  }

  lemma WbFallbackLacks(article: string, pat: string, c: char)
    requires article == Unknown || AllDigits(article)
    requires |pat| > 1 && pat[1] == c
    requires c == 'к' || c == '/'
    ensures forall i :: !StartsAt(FallbackName(Wildberries, article), i, pat)
  {
    FallbackLacks(Wildberries, article, pat, c);
  }

  /** A pattern whose second character the fallback name lacks does not
      occur in it. */
  lemma FallbackLacks(mp: Marketplace, article: string, pat: string, c: char)
    requires article == Unknown || AllDigits(article)
    requires |pat| > 1 && pat[1] == c
    requires !IsDigit(c) && c != ' ' && c !in "Товар" && c !in Label(mp) && c !in Unknown
    ensures forall i :: !StartsAt(FallbackName(mp, article), i, pat)
  {
    FallbackAvoids(mp, article, c);
    AbsentCharBlocks(FallbackName(mp, article), pat, 1);
  }

  /** A fallback name has no whitespace at either end. */
  lemma FallbackIsStripped(mp: Marketplace, article: string)
    requires article == Unknown || (|article| > 0 && AllDigits(article))
    ensures Strip(FallbackName(mp, article)) == FallbackName(mp, article)
  {
    var f := FallbackName(mp, article);
    assert f[|f| - 1] == article[|article| - 1];
    assert IsDigit(f[|f| - 1]) || f[|f| - 1] == 'n';
    StripIdentity(f);
  }

  /** A page without a title is named by the fallback name. */
  lemma PageNameWithoutTitle(mp: Marketplace, article: string, html: string)
    requires Title(html).None?
    requires article == Unknown || (|article| > 0 && AllDigits(article))
    ensures PageName(mp, article, html) == FallbackName(mp, article)
  {
    var f := FallbackName(mp, article);
    FallbackHasNoSuffix(mp, article);
    assert RemoveAll(f, Suffixes(mp).0) == f;
    assert RemoveAll(f, Suffixes(mp).1) == f;
    FallbackIsStripped(mp, article);
  }

  /** A title holding neither suffix is only stripped. */
  lemma PageNameOfPlainTitle(mp: Marketplace, article: string, html: string)
    requires Title(html).Some?
    requires forall i :: !StartsAt(Strip(Title(html).value), i, Suffixes(mp).0)
    requires forall i :: !StartsAt(Strip(Title(html).value), i, Suffixes(mp).1)
    ensures PageName(mp, article, html) == Strip(Title(html).value)
  {
    StripIdempotent(Title(html).value);
  }

  /** A title ending in the first suffix, which occurs nowhere earlier, loses
      it: "Чайник — купить на OZON" is named "Чайник". */
  lemma PageNameDropsSuffix(mp: Marketplace, article: string, html: string, base: string)
    requires Title(html).Some?
    requires Strip(Title(html).value) == base + Suffixes(mp).0
    requires forall i :: 0 <= i < |base| ==> !StartsAt(base + Suffixes(mp).0, i, Suffixes(mp).0)
    requires forall i :: !StartsAt(base, i, Suffixes(mp).1)
    ensures PageName(mp, article, html) == Strip(base)
  {
    var (first, second) := Suffixes(mp);
    RemoveTrailing(base, first);
  }

  /** Removing a pattern that occurs only at the very end leaves what comes
      before it. */
  lemma RemoveTrailing(base: string, pat: string)
    requires |pat| > 0
    requires forall i :: 0 <= i < |base| ==> !StartsAt(base + pat, i, pat)
    ensures RemoveAll(base + pat, pat) == base
  {
    assert base + pat + "" == base + pat;
    RemoveAllFirst(base, pat, "");
    assert RemoveAll("", pat) == "";
  }

  // ---------------------------------------------------------------------------
  // parse_ozon / parse_wildberries

  /** The `try` block of the page read ran to the end: the page was fetched
      and decoded, and `int()` accepted its price, which fails only on a
      chosen digit group longer than the digit limit. */
  function PageRead(page: Option<string>): (b: bool)
    ensures b <==> page.Some?
                   && (KeyedPrice(page.value).Some? ==> |KeyedPrice(page.value).value| <= MaxIntDigits)
                   && (KeyedPrice(page.value).None? && RublePrice(page.value).Some? ==>
                         |RublePrice(page.value).value| <= MaxIntDigits)
  {
    page.Some? && PagePrice(page.value).Some?
  }

  /** The draft for a link of marketplace `mp`. The marketplace and link are
      carried through, the article comes from the link alone, and the name
      never exceeds 500 characters nor starts with whitespace. When the page
      read raised (no page, or a price too long for `int()`) the price is 0,
      the image is the placeholder and the name is the fallback name; so is
      the name of a page without a title. */
  function ParseListing(mp: Marketplace, url: string, page: Option<string>,
                        findImage: Marketplace -> string -> Option<string>): (r: Draft)
    ensures r.marketplace == mp && r.productUrl == url
    ensures r.articleNumber == Article(mp, url)
    ensures |r.name| <= MaxNameLength
    ensures |r.name| > 0 ==> !IsSpace(r.name[0])
    ensures !PageRead(page) ==>
              && r.currentPrice == 0
              && r.imageUrl == DefaultImage
              && r.name == Truncate(FallbackName(mp, r.articleNumber), MaxNameLength)
    ensures PageRead(page) ==>
              && r.currentPrice == PagePrice(page.value).value
              && r.imageUrl == findImage(mp)(page.value).GetOr(DefaultImage)
              && r.name == Truncate(PageName(mp, r.articleNumber, page.value), MaxNameLength)
    ensures PageRead(page) && Title(page.value).None? ==>
              r.name == Truncate(FallbackName(mp, r.articleNumber), MaxNameLength)
  {
    var article := Article(mp, url);
    if PageRead(page) then
      var html := page.value;
      var draft := Draft(Truncate(PageName(mp, article, html), MaxNameLength), article, mp,
                         PagePrice(html).value, findImage(mp)(html).GetOr(DefaultImage), url);
      if Title(html).None? then
        PageNameWithoutTitle(mp, article, html);
        draft
      else draft
    else
      Draft(Truncate(FallbackName(mp, article), MaxNameLength), article, mp, 0, DefaultImage, url)
  }

  // ---------------------------------------------------------------------------
  // handler

  /** `httpMethod` and the body's `url` key; `None` when absent. */
  datatype Request = Request(httpMethod: Option<string>, url: Option<string>)

  datatype Payload = NoContent | Error(message: string) | Found(draft: Draft)

  const MethodNotAllowed: string := "Method not allowed"
  const UrlRequired: string := "URL is required"
  const Unsupported: string := "Unsupported marketplace. Only Ozon and Wildberries are supported."

  function Method(req: Request): string {
    req.httpMethod.GetOr("POST")
  }

  function Link(req: Request): string {
    req.url.GetOr("")
  }

  /** The marketplace the request's link is dispatched to, if any: none when
      urlsplit raises, otherwise the one the lower-cased host names. */
  function Dispatch(url: string): (r: Option<Marketplace>)
    ensures Netloc(url).None? ==> r.None?
    ensures Netloc(url).Some? ==> r == MarketplaceOf(LowerAscii(Netloc(url).value))
  {
    match Netloc(url)
    case Some(host) => MarketplaceOf(LowerAscii(host))
    case None => None
  }

  /** The service's entry point. */
  function Handle(req: Request, page: Option<string>, findImage: Marketplace -> string -> Option<string>): (r: Reply<Payload>)
    ensures Method(req) == "OPTIONS" ==> r == Respond(200, NoContent)
    ensures Method(req) != "OPTIONS" && Method(req) != "POST" ==> r == Respond(405, Error(MethodNotAllowed))
    ensures Method(req) == "POST" && Link(req) == "" ==> r == Respond(400, Error(UrlRequired))
    ensures r.Raised? <==> Method(req) == "POST" && Link(req) != "" && Netloc(Link(req)).None?
    ensures Method(req) == "POST" && Link(req) != "" && Netloc(Link(req)).Some? && Dispatch(Link(req)).None? ==>
              r == Respond(400, Error(Unsupported))
    ensures r.Respond? && r.body.Found? ==>
              && r.status == 200
              && Link(req) != ""
              && r.body.draft.productUrl == Link(req)
              && Dispatch(Link(req)) == Some(r.body.draft.marketplace)
  {
    var verb := Method(req);
    if verb == "OPTIONS" then Respond(200, NoContent)
    else if verb != "POST" then Respond(405, Error(MethodNotAllowed))
    else
      var url := Link(req);
      if url == "" then Respond(400, Error(UrlRequired))
      else
        match Netloc(url)
        case None => Raised
        case Some(host) =>
          match MarketplaceOf(LowerAscii(host))
          case Some(mp) => Respond(200, Found(ParseListing(mp, url, page, findImage)))
          case None => Respond(400, Error(Unsupported))
  }

  /** A request yields a draft exactly when it is a POST with a non-empty link
      whose host is an Ozon or Wildberries host; the draft then carries that
      marketplace, the link, and the price read from the page (0 if the fetch
      failed). */
  lemma DraftExactlyForSupportedLinks(req: Request, page: Option<string>, findImage: Marketplace -> string -> Option<string>)
    ensures var r := Handle(req, page, findImage);
            (r.Respond? && r.body.Found?) <==>
              Method(req) == "POST" && Link(req) != "" && Dispatch(Link(req)).Some?
    ensures var r := Handle(req, page, findImage);
            r.Respond? && r.body.Found? ==>
              r.body.draft == ParseListing(Dispatch(Link(req)).value, Link(req), page, findImage)
  {
  }

  /** Links without "//" have an empty host and are refused as unsupported. */
  lemma NoAuthorityIsUnsupported(req: Request, page: Option<string>, findImage: Marketplace -> string -> Option<string>)
    requires Method(req) == "POST" && Link(req) != ""
    requires !StartsAt(AfterScheme(Sanitize(Link(req))), 0, "//")
    ensures Handle(req, page, findImage) == Respond(400, Error(Unsupported))
  {
    assert Netloc(Link(req)) == Some("");
    assert !Contains("", "ozon.ru") && !Contains("", "wildberries.ru") && !Contains("", "wb.ru");
  }
}
