/** The next-intl configuration of frontend/i18n/routing.ts, taken as
    parameters: the mode, the supported locales and the default locale, and
    the parsing of an Accept-Language header that the locale resolution
    shares. */
module Routing {
  import opened Text
  import opened Segments

  /** `routing.locales`, `routing.defaultLocale` and `MODE`. */
  datatype Config = Config(mode: string, locales: seq<string>, defaultLocale: string)

  const CookieMode := "cookie"
  const PathnameMode := "pathname"
  const LocaleCookie := "NEXT_LOCALE"

  /** The routing mode: the value of the mode variable whenever it is set,
      even to the empty string, and `pathname` when it is unset. */
  function ModeFromEnv(env: Option<string>): string {
    if env.Some? then env.value else PathnameMode
  }

  /** The default locale: the fallback-locale variable rendered into a
      template string, with `en` for an empty rendering. An unset variable
      renders as the text `undefined`, so `en` is used only when the variable
      is set to the empty string. */
  function DefaultLocaleFromEnv(env: Option<string>): (locale: string)
    ensures locale != ""
    ensures env.Some? && env.value != "" ==> locale == env.value
    ensures env == Some("") ==> locale == "en"
    ensures locale == "en" <==> env == Some("") || env == Some("en")
    ensures env.None? ==> locale == "undefined"
  {
    var rendered := if env.Some? then env.value else "undefined";
    if rendered == "" then "en" else rendered
  }

  /** The primary subtag of the first entry of an Accept-Language header:
      the header up to its first ',' and then up to its first '-'. */
  function PrimaryLanguage(header: Option<string>): (tag: Option<string>)
    ensures tag.Some? <==> header.Some?
    ensures tag.Some? ==> ',' !in tag.value && '-' !in tag.value
    ensures tag.Some? ==> StartsWith(header.value, tag.value)
    ensures tag.Some? ==>
      (|tag.value| == |header.value| || header.value[|tag.value|] == ',' || header.value[|tag.value|] == '-')
  {
    if header.None? then None
    else
      var first := Split(header.value, ',')[0];
      SplitFirstIsPrefix(header.value, ',');
      SplitFirstIsPrefix(first, '-');
      var tag := Split(first, '-')[0];
      assert ',' !in tag by {
        assert forall i :: 0 <= i < |tag| ==> tag[i] == first[i];
      }
      Some(tag)
  }

  /** The first piece of a split is the longest prefix of the string
      without the separator: it is the whole string or is followed by the
      separator. */
  lemma {:induction false} SplitFirstIsPrefix(s: string, sep: char)
    ensures StartsWith(s, Split(s, sep)[0])
    ensures |Split(s, sep)[0]| == |s| || s[|Split(s, sep)[0]|] == sep
    decreases |s|
  {
    if |s| > 0 && s[0] != sep {
      SplitFirstIsPrefix(s[1..], sep);
    }
  }

  /** The primary subtag of a header whose first entry is `tag-region…`. */
  lemma PrimaryLanguageOfHeader(tag: string, rest: string)
    requires ',' !in tag && '-' !in tag
    ensures PrimaryLanguage(Some(tag + "-" + rest)) == Some(tag)
  {
    var h := tag + "-" + rest;
    var first := Split(h, ',')[0];
    SplitFirstIsPrefix(h, ',');
    SplitFirstIsPrefix(first, '-');
    SplitPrefixUpTo(h, ',', tag);
    SplitAfterSeparator(tag, Split(h, ',')[0][|tag| + 1..], '-');
    assert first == tag + "-" + first[|tag| + 1..];
  }

  /** A prefix free of the separator, followed by a character other than the
      separator, lies inside the first piece. */
  lemma {:induction false} SplitPrefixUpTo(s: string, sep: char, prefix: string)
    requires StartsWith(s, prefix) && sep !in prefix && |s| > |prefix|
    requires s[|prefix|] != sep
    ensures |Split(s, sep)[0]| > |prefix|
    decreases |prefix|
  {
    if |prefix| > 0 {
      SplitPrefixUpTo(s[1..], sep, prefix[1..]);
    }
  }
}
