/** Model of `detectLocale` in frontend/i18n/request.ts, the locale the
    server uses to load its messages. As written, its Accept-Language
    fallback is guarded by a test of the function `detectLocale` itself,
    which is always truthy, so the fallback never runs; `DetectLocale`
    models that, `DetectLocaleIntended` the guard on the detected value. */
module I18nRequest {
  import opened Text
  import opened Routing

  /** `routing.locales.includes(detected)`: an absent value is never included. */
  predicate Included(config: Config, detected: Option<string>) {
    detected.Some? && detected.value in config.locales
  }

  /** `detectLocale()` as written. `cookie` is the `NEXT_LOCALE` cookie and
      `acceptLanguage` the Accept-Language header of the request. */
  method DetectLocale(config: Config, cookie: Option<string>, acceptLanguage: Option<string>)
    returns (locale: string)
    ensures locale in config.locales || locale == config.defaultLocale
    ensures config.mode == CookieMode && Included(config, cookie) ==> locale == cookie.value
    ensures config.mode == CookieMode && !Included(config, cookie) ==> locale == config.defaultLocale
    ensures config.mode != CookieMode ==> locale == config.defaultLocale
  {
    var detected: Option<string> := None;
    if config.mode == CookieMode {
      detected := cookie;
    }
    // The fallback's guard `!detectLocale` negates a function value, which
    // is always false, so the Accept-Language header is never read.
    if !Included(config, detected) {
      detected := Some(config.defaultLocale);
    }
    return detected.value;
  }

  /** `detectLocale()` with the guard the comment describes: fall back to the
      Accept-Language header when no locale was detected (`!detectedLocale`). */
  method DetectLocaleIntended(config: Config, cookie: Option<string>, acceptLanguage: Option<string>)
    returns (locale: string)
    ensures locale in config.locales || locale == config.defaultLocale
    ensures config.mode == CookieMode && Truthy(cookie) && Included(config, cookie) ==> locale == cookie.value
    ensures config.mode == CookieMode && Truthy(cookie) && !Included(config, cookie) ==>
      locale == config.defaultLocale
    ensures (config.mode != CookieMode || !Truthy(cookie)) ==>
      locale == if Included(config, PrimaryLanguage(acceptLanguage))
                then PrimaryLanguage(acceptLanguage).value
                else config.defaultLocale
  {
    var detected: Option<string> := None;
    if config.mode == CookieMode {
      detected := cookie;
    }
    if !Truthy(detected) {
      detected := PrimaryLanguage(acceptLanguage);
    }
    if !Included(config, detected) {
      detected := Some(config.defaultLocale);
    }
    return detected.value;
  }

  /** A browser asking for German on a pathname-mode site with English as
      default: the model as written answers `en`, the intended one `de`. */
  method AcceptLanguageIgnored() returns (asWritten: string, intended: string)
    ensures asWritten == "en" && intended == "de"
  {
    var config := Config(PathnameMode, ["en", "de"], "en");
    var header := Some("de-DE,de;q=0.9");
    PrimaryLanguageOfHeader("de", "DE,de;q=0.9");
    assert "de" + "-" + "DE,de;q=0.9" == header.value;
    asWritten := DetectLocale(config, None, header);
    intended := DetectLocaleIntended(config, None, header);
  }
}
