/**
 * The second middleware (src/middleware.ts): the bare root `/` is redirected to
 * `/en`; every other pathname continues unchanged. It never rewrites.
 */
module RootMiddleware {
  import opened Wrappers
  import LocaleMiddleware

  const RootTarget: string := "/en"

  /** The decision for a request pathname; the redirect target is the pathname of `new URL('/en', request.url)`. */
  function Middleware(pathname: string): (r: LocaleMiddleware.Outcome)
    ensures !r.Rewrite?
    ensures r.Redirect? <==> pathname == "/"
    ensures r.Redirect? ==> r.to == RootTarget
    ensures r.Pass? <==> pathname != "/"
  {
    if pathname == "/" then LocaleMiddleware.Redirect(RootTarget) else LocaleMiddleware.Pass
  }

  /** No redirect loop: following the redirect once more passes through. */
  lemma {:induction false} NoRedirectLoop(pathname: string)
    ensures var r := Middleware(pathname);
      r.Redirect? ==> Middleware(r.to) == LocaleMiddleware.Pass
  {
    assert RootTarget != "/" by { assert |RootTarget| == 3; }
  }

  /** The redirect target is itself a locale-prefixed pathname, which the locale middleware passes through. */
  lemma {:induction false} TargetPassesLocaleMiddleware(acceptLanguage: Option<string>)
    ensures LocaleMiddleware.Middleware(RootTarget, acceptLanguage) == LocaleMiddleware.Pass
  {
    LocaleMiddleware.PassIffLocalePrefixed(RootTarget, acceptLanguage);
  }
}
