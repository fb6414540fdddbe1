/** Model of the `middleware` of frontend/proxy.ts: which requests pass
    through untouched, and how the locale of the others is resolved from the
    locale next-intl found, the `NEXT_LOCALE` cookie and the Accept-Language
    header, in that order. */
module Proxy {
  import opened Text
  import opened Routing

  /** A candidate is adopted when it is a non-empty supported locale. */
  predicate Usable(config: Config, candidate: Option<string>) {
    Truthy(candidate) && candidate.value in config.locales
  }

  datatype MiddlewareResult =
    | PassThrough                                        // `NextResponse.next()`
    | Localised(locale: string, cookie: Option<string>)  // next-intl's response, with the cookie it sets

  /** The request is a static or internal asset. */
  predicate IsAssetPath(pathname: string) {
    StartsWith(pathname, "/_next") || '.' in pathname
  }

  /** `middleware(req)`: `intlLocale` is the `x-next-intl-locale` header of
      next-intl's response, `cookie` the request's `NEXT_LOCALE` cookie and
      `acceptLanguage` its Accept-Language header. */
  method Middleware(config: Config, pathname: string, intlLocale: Option<string>,
                    cookie: Option<string>, acceptLanguage: Option<string>)
    returns (result: MiddlewareResult)
    ensures result == PassThrough <==> config.mode == CookieMode || IsAssetPath(pathname)
    ensures result.Localised? ==>
      var initial := if intlLocale.Some? then intlLocale.value else config.defaultLocale;
      var accepted := PrimaryLanguage(acceptLanguage);
      && (Usable(config, Some(initial)) ==> result.locale == initial)
      && (!Usable(config, Some(initial)) && Usable(config, cookie) ==> result.locale == cookie.value)
      && ((!Usable(config, Some(initial)) && !Usable(config, cookie) && Usable(config, accepted)) ==>
            result.locale == accepted.value)
      && ((!Usable(config, Some(initial)) && !Usable(config, cookie) && !Usable(config, accepted)) ==>
            result.locale == initial)
      && (Usable(config, Some(result.locale)) <==>
            Usable(config, Some(initial)) || Usable(config, cookie) || Usable(config, accepted))
    ensures result.Localised? ==>
      result.cookie == if config.mode == PathnameMode then Some(result.locale) else None
  {
    if config.mode == CookieMode {
      return PassThrough;
    }
    if StartsWith(pathname, "/_next") || '.' in pathname {
      return PassThrough;
    }
    var resolved := if intlLocale.Some? then intlLocale.value else config.defaultLocale;
    if !Usable(config, Some(resolved)) {
      if Usable(config, cookie) {
        resolved := cookie.value;
      }
    }
    if !Usable(config, Some(resolved)) {
      var accepted := PrimaryLanguage(acceptLanguage);
      if Usable(config, accepted) {
        resolved := accepted.value;
      }
    }
    var setCookie := None;
    if config.mode == PathnameMode {
      setCookie := Some(resolved);
    }
    return Localised(resolved, setCookie);
  }
}
