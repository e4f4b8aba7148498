/**
 * The locale-routing middleware at the repository root (middleware.ts).
 * A request pathname is passed through when it already carries a supported
 * locale prefix; otherwise it is rewritten, server-side, to carry the locale
 * detected from the first item of the `accept-language` header. A redirect
 * branch for unsupported locales exists in the code but no input reaches it.
 */
module LocaleMiddleware {
  import opened Wrappers
  import opened Strings

  const Locales: seq<string> := ["en", "no"]
  const DefaultLocale: string := "en"

  /** What the middleware answers: continue, a client redirect, or a server-side rewrite. */
  datatype Outcome = Pass | Redirect(to: string) | Rewrite(to: string)

  /** `pathname.startsWith('/' + locale + '/') || pathname === '/' + locale`. */
  predicate HasLocalePrefix(pathname: string, locale: string)
  {
    StartsWith(pathname, "/" + locale + "/") || pathname == "/" + locale
  }

  /** `locales.some(...)`: the test that decides between the two branches. */
  predicate PathnameHasLocale(pathname: string)
  {
    exists i :: 0 <= i < |Locales| && HasLocalePrefix(pathname, Locales[i])
  }

  /** `const [, requestedLocale] = pathname.split('/')`: the second piece, if any. */
  function RequestedLocale(pathname: string): Option<string>
  {
    var parts := Split(pathname, '/');
    if |parts| > 1 then Some(parts[1]) else None
  }

  /**
   * `request.headers.get('accept-language')?.split(',')[0].split('-')[0] || defaultLocale`,
   * then replaced by the default locale unless it is a supported one.
   */
  function DetectLocale(acceptLanguage: Option<string>): (locale: string)
    ensures locale in Locales
  {
    var primary :=
      match acceptLanguage
      case None => ""
      case Some(h) => Split(Split(h, ',')[0], '-')[0];
    var detected := if primary != "" then primary else DefaultLocale;
    if detected in Locales then detected else DefaultLocale
  }

  /** The middleware's decision for a pathname and an optional `accept-language` header. */
  function Middleware(pathname: string, acceptLanguage: Option<string>): (r: Outcome)
  {
    if PathnameHasLocale(pathname) then
      match RequestedLocale(pathname)
      case Some(requested) =>
        if requested != "" && requested !in Locales then
          Redirect("/" + DefaultLocale + Substring(pathname, |"/" + requested|))
        else
          Pass
      case None => Pass
    else
      Rewrite("/" + DetectLocale(acceptLanguage) + pathname)
  }

  /** A locale-prefixed pathname is `/`, the two letters of the locale, then nothing or `/`. */
  lemma {:induction false} LocalePrefixShape(pathname: string, locale: string)
    requires |locale| == 2
    requires HasLocalePrefix(pathname, locale)
    ensures |pathname| >= 3 && pathname[0] == '/' && pathname[1..3] == locale
    ensures |pathname| == 3 || pathname[3] == '/'
  {
    var head := "/" + locale;
    if pathname != head {
      assert pathname[..4] == head + "/";
      assert pathname[..3] == (head + "/")[..3];
      assert pathname[3] == pathname[..4][3];
    }
    assert pathname[..3] == head;
    assert pathname[1..3] == pathname[..3][1..];
  }

  /** The second piece of `/` + a segment + nothing-or-`/`... is that segment. */
  lemma {:induction false} SecondPiece(pathname: string, segment: string)
    requires '/' !in segment
    requires |pathname| >= |segment| + 1 && pathname[0] == '/' && pathname[1..|segment| + 1] == segment
    requires |pathname| == |segment| + 1 || pathname[|segment| + 1] == '/'
    ensures |Split(pathname, '/')| > 1 && Split(pathname, '/')[1] == segment
  {
    SplitLeading(pathname, '/');
    var tail := pathname[1..];
    var rest := tail[|segment|..];
    assert tail[..|segment|] == segment;
    assert tail == segment + rest;
    SplitFirst(segment, rest, '/');
  }

  /** When the prefix test holds, the first path segment is the matched locale. */
  lemma {:induction false} RequestedIsMatchedLocale(pathname: string, locale: string)
    requires locale in Locales
    requires HasLocalePrefix(pathname, locale)
    ensures RequestedLocale(pathname) == Some(locale)
  {
    assert locale == "en" || locale == "no";
    assert '/' !in locale;
    LocalePrefixShape(pathname, locale);
    SecondPiece(pathname, locale);
  }

  /** The redirect branch can never fire: no pathname and no header produce a redirect. */
  lemma {:induction false} RedirectUnreachable(pathname: string, acceptLanguage: Option<string>)
    ensures !Middleware(pathname, acceptLanguage).Redirect?
  {
    if PathnameHasLocale(pathname) {
      var i :| 0 <= i < |Locales| && HasLocalePrefix(pathname, Locales[i]);
      RequestedIsMatchedLocale(pathname, Locales[i]);
    }
  }

  /** A pathname that carries a supported locale prefix is passed through, and only such a one. */
  lemma {:induction false} PassIffLocalePrefixed(pathname: string, acceptLanguage: Option<string>)
    ensures Middleware(pathname, acceptLanguage) == Pass <==>
      (pathname == "/en" || pathname == "/no" ||
       StartsWith(pathname, "/en/") || StartsWith(pathname, "/no/"))
  {
    RedirectUnreachable(pathname, acceptLanguage);
    assert HasLocalePrefix(pathname, Locales[0]) <==> pathname == "/en" || StartsWith(pathname, "/en/");
    assert HasLocalePrefix(pathname, Locales[1]) <==> pathname == "/no" || StartsWith(pathname, "/no/");
  }

  /** Every other pathname is rewritten to the detected locale followed by the pathname verbatim. */
  lemma {:induction false} RewriteKeepsPathname(pathname: string, acceptLanguage: Option<string>)
    requires !PathnameHasLocale(pathname)
    ensures Middleware(pathname, acceptLanguage).Rewrite?
    ensures var to := Middleware(pathname, acceptLanguage).to;
      exists l :: l in Locales && to == "/" + l + pathname && l == DetectLocale(acceptLanguage)
  {
    var l := DetectLocale(acceptLanguage);
    assert Middleware(pathname, acceptLanguage).to == "/" + l + pathname;
  }

  /** With a pathname that starts with `/`, a rewrite target starts with `/en/` or `/no/`. */
  lemma {:induction false} RewriteTargetPrefixed(pathname: string, acceptLanguage: Option<string>)
    requires |pathname| > 0 && pathname[0] == '/'
    requires Middleware(pathname, acceptLanguage).Rewrite?
    ensures StartsWith(Middleware(pathname, acceptLanguage).to, "/en/") ||
            StartsWith(Middleware(pathname, acceptLanguage).to, "/no/")
  {
    var l := DetectLocale(acceptLanguage);
    var to := "/" + l + pathname;
    assert l == "en" || l == "no";
    assert to[..4] == "/" + l + "/";
  }

  /** Stability: feeding a rewrite target back through the middleware passes it through. */
  lemma {:induction false} RewriteIsStable(pathname: string, acceptLanguage: Option<string>, nextHeader: Option<string>)
    requires pathname == "" || pathname[0] == '/'
    requires Middleware(pathname, acceptLanguage).Rewrite?
    ensures Middleware(Middleware(pathname, acceptLanguage).to, nextHeader) == Pass
  {
    var l := DetectLocale(acceptLanguage);
    var to := "/" + l + pathname;
    assert l == Locales[0] || l == Locales[1];
    var i := if l == Locales[0] then 0 else 1;
    if pathname == "" {
      assert to == "/" + l;
    } else {
      assert to[..|"/" + l + "/"|] == "/" + l + "/";
    }
    assert HasLocalePrefix(to, Locales[i]);
    RedirectUnreachable(to, nextHeader);
  }

  /**
   * Only the first header item is read, and its weight is not parsed: a first item
   * such as `no;q=0.9` is not a supported locale, so the default is used.
   */
  lemma {:induction false} DetectReadsFirstItemOnly(first: string, others: string)
    requires ',' !in first && '-' !in first && first !in Locales
    ensures DetectLocale(Some(first + "," + others)) == DefaultLocale
  {
    SplitFirst(first, "," + others, ',');
    assert first + "," + others == first + ("," + others);
    SplitNone(first, '-');
  }

  /** Whatever follows the first comma is never read. */
  lemma {:induction false} DetectIgnoresLaterItems(first: string, rest: string)
    requires ',' !in first
    ensures DetectLocale(Some(first + "," + rest)) == DetectLocale(Some(first))
  {
    assert first + "," + rest == first + ("," + rest);
    SplitFirst(first, "," + rest, ',');
    SplitNone(first, ',');
    assert Split(first + "," + rest, ',')[0] == first;
  }

  /** A supported locale alone or followed by a `-region` suffix is detected as that locale. */
  lemma {:induction false} DetectKeepsSupportedLocale(l: string, tail: string)
    requires l in Locales && (tail == [] || tail[0] == '-') && ',' !in tail
    ensures DetectLocale(Some(l + tail)) == l
  {
    assert ',' !in l && '-' !in l;
    assert ',' !in l + tail;
    SplitNone(l + tail, ',');
    SplitFirst(l, tail, '-');
  }

  /** Any other first item, with or without a `-region` suffix, falls back to the default locale. */
  lemma {:induction false} DetectUnsupportedFallsBack(p: string, tail: string, rest: string)
    requires p !in Locales && ',' !in p && '-' !in p && (tail == [] || tail[0] == '-') && ',' !in tail
    ensures DetectLocale(Some(p + tail + "," + rest)) == DefaultLocale
  {
    assert ',' !in p + tail;
    DetectIgnoresLaterItems(p + tail, rest);
    SplitNone(p + tail, ',');
    SplitFirst(p, tail, '-');
  }

  lemma {:induction false} DetectIgnoresWeights()
    ensures DetectLocale(Some("no;q=0.9,en")) == "en"
  {
    var first := "no;q=0.9";
    assert first[2] == ';';
    DetectReadsFirstItemOnly(first, "en");
    assert first + "," + "en" == "no;q=0.9,en";
  }

  /** The region suffix is cut off at the first `-` of the first item. */
  lemma {:induction false} DetectPrimarySubtag()
    ensures DetectLocale(Some("no-NO,en;q=0.8")) == "no"
  {
    var first := "no-NO";
    assert ',' !in first;
    SplitFirst(first, ",en;q=0.8", ',');
    assert first + ",en;q=0.8" == "no-NO,en;q=0.8";
    SplitFirst("no", "-NO", '-');
    assert "no" + "-NO" == first;
  }

  /** An absent header or an empty first item falls back to the default locale. */
  lemma {:induction false} DetectFallsBack(h: string)
    requires h == "" || h[0] == ','
    ensures DetectLocale(None) == DefaultLocale
    ensures DetectLocale(Some(h)) == DefaultLocale
  {
    SplitFirst("", h, ',');
    assert "" + h == h;
    assert Split("", '-') == [""];
  }

  /** Matching is by prefix: an unsupported locale segment is rewritten, not redirected. */
  lemma {:induction false} UnsupportedLocaleRewritten()
    ensures Middleware("/fr/dashboard", None) == Rewrite("/en/fr/dashboard")
  {
    var fr := "/fr/dashboard";
    assert fr[1] == 'f';
    assert !PathnameHasLocale(fr);
  }

  /** A longer first segment that merely starts with a locale is rewritten too. */
  lemma {:induction false} LongerSegmentRewritten()
    ensures Middleware("/enx", None) == Rewrite("/en/enx")
  {
    var enx := "/enx";
    assert enx[3] == 'x' && enx[1] == 'e';
    assert !PathnameHasLocale(enx);
  }

  /** The root pathname has no locale and is rewritten to the default locale's root. */
  lemma {:induction false} RootRewritten()
    ensures Middleware("/", None) == Rewrite("/en/")
  {
    assert !PathnameHasLocale("/");
  }
}
