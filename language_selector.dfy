/** Model of frontend/components/common/LanguageSelector.tsx: the locale read
    off the current path, the path with its locale segment swapped, the
    selection rule of the listbox and which of its options is disabled. */
module LanguageSelector {
  import opened Text
  import opened Segments

  const SupportedLocales: seq<string> := ["de", "es", "fr", "en", "it", "nl", "ro"]

  const PreferredCookie := "preferred_locale"

  datatype Flag = FlagDE | FlagES | FlagFR | FlagGB | FlagIT | FlagNL | FlagRO

  const Flags: map<string, Flag> :=
    map["de" := FlagDE, "es" := FlagES, "fr" := FlagFR, "en" := FlagGB,
        "it" := FlagIT, "nl" := FlagNL, "ro" := FlagRO]

  /** The labels as the component spells them, `Fraçais` included. */
  const Labels: map<string, string> :=
    map["de" := "Deutsch", "es" := "Español", "fr" := "Fraçais", "en" := "English",
        "it" := "Italiano", "nl" := "Nederlands", "ro" := "Română"]

  /** Every supported locale has a flag and a label, and no locale holds a '/'. */
  lemma LocaleTablesTotal(l: string)
    requires l in SupportedLocales
    ensures l in Flags && l in Labels
    ensures '/' !in l && l != ""
  {
  }

  /** `parts.filter(Boolean)[0]`: the first non-empty piece, if any. */
  function FirstNonEmpty(parts: seq<string>): (r: Option<string>)
    ensures r.Some? ==> r.value != "" && r.value in parts
    ensures r.None? <==> forall i :: 0 <= i < |parts| ==> parts[i] == ""
  {
    if |parts| == 0 then None
    else if parts[0] != "" then Some(parts[0])
    else FirstNonEmpty(parts[1..])
  }

  /** The piece found is the one at the first non-empty index: every piece
      before it is empty. */
  lemma {:induction false} FirstNonEmptyAt(parts: seq<string>, i: nat)
    requires i < |parts| && parts[i] != ""
    requires forall j :: 0 <= j < i ==> parts[j] == ""
    ensures FirstNonEmpty(parts) == Some(parts[i])
  {
    if i > 0 {
      assert parts[0] == "";
      FirstNonEmptyAt(parts[1..], i - 1);
    }
  }

  /** After an empty first piece, a non-empty second piece is the first
      non-empty one. */
  lemma FirstNonEmptyOfSecond(parts: seq<string>)
    requires |parts| >= 2 && parts[0] == "" && parts[1] != ""
    ensures FirstNonEmpty(parts) == Some(parts[1])
  {
    FirstNonEmptyAt(parts, 1);
  }

  /** `inferCurrentLocale`: the first non-empty path segment when it is a
      supported locale (compared case-sensitively), else `en`. */
  function InferCurrentLocale(pathname: string): (locale: string)
    ensures locale in SupportedLocales
    ensures locale != "en" ==> locale in Split(pathname, '/')
    ensures (forall i :: 0 <= i < |Split(pathname, '/')| ==> Split(pathname, '/')[i] == "") ==> locale == "en"
  {
    var seg := FirstNonEmpty(Split(pathname, '/'));
    if seg.Some? && seg.value in SupportedLocales then seg.value else "en"
  }

  /** The locale read off a path is decided by its first non-empty segment
      alone: that segment when it is supported, `en` otherwise. */
  lemma InferCurrentLocaleRule(pathname: string, i: nat)
    requires i < |Split(pathname, '/')| && Split(pathname, '/')[i] != ""
    requires forall j :: 0 <= j < i ==> Split(pathname, '/')[j] == ""
    ensures InferCurrentLocale(pathname) ==
      if Split(pathname, '/')[i] in SupportedLocales then Split(pathname, '/')[i] else "en"
  {
    FirstNonEmptyAt(Split(pathname, '/'), i);
  }

  /** A path made of one segment after the leading '/' reads as that
      segment when it is a supported locale, and as `en` otherwise. */
  lemma InferSingleSegment(segment: string)
    requires segment != "" && '/' !in segment
    ensures InferCurrentLocale("/" + segment) ==
      if segment in SupportedLocales then segment else "en"
  {
    SplitTwo("", segment, '/');
    assert "/" + segment == "" + ['/'] + segment;
    InferCurrentLocaleRule("/" + segment, 1);
  }

  /** The second piece of the path (the one after the leading '/') is a
      supported locale. */
  predicate HasLocaleSegment(pathname: string) {
    var parts := Split(pathname, '/');
    |parts| > 1 && parts[1] in SupportedLocales
  }

  /** `swapLocaleInPath`: when the second piece of the path is a supported
      locale it is replaced by `next` and every other piece is kept; otherwise
      `next` becomes a new first segment in front of the path's own segments
      (`/` and the empty path become just `/next`). */
  function SwapLocaleInPath(pathname: string, next: string): (path: string)
    requires next in SupportedLocales
    ensures HasLocaleSegment(pathname) ==> Split(path, '/') == Split(pathname, '/')[1 := next]
    ensures !HasLocaleSegment(pathname) ==>
      (Split(path, '/') ==
        ["", next] + (if pathname == "" || pathname == "/" then []
                      else if pathname[0] == '/' then Split(pathname[1..], '/')
                      else Split(pathname, '/')))
  {
    LocaleTablesTotal(next);
    var parts := Split(pathname, '/');
    if |parts| > 1 && parts[1] in SupportedLocales then
      JoinAtSecond(parts, next);
      SplitJoin(parts[1 := next], '/');
      var joined := Join(parts[1 := next], '/');
      if joined == "" then "/" else joined
    else
      var tail := PrefixTail(pathname);
      SplitPrefixed(next, tail);
      assert pathname != "" && pathname != "/" && pathname[0] != '/' ==> tail[1..] == pathname;
      "/" + next + tail
  }

  /** What follows the second piece when the pieces are joined again. */
  function JoinedAfterSecond(parts: seq<string>): string
    requires |parts| >= 2
  {
    if |parts| == 2 then "" else "/" + Join(parts[2..], '/')
  }

  lemma JoinAtSecond(parts: seq<string>, x: string)
    requires |parts| >= 2
    ensures Join(parts[1 := x], '/') == parts[0] + "/" + x + JoinedAfterSecond(parts)
  {
    var q := parts[1 := x];
    assert q[1..][1..] == parts[2..];
  }

  /** The pieces of `"/" + l + tail` when `tail` is empty or starts a new piece. */
  lemma SplitPrefixed(l: string, tail: string)
    requires '/' !in l
    requires tail == "" || tail[0] == '/'
    ensures Split("/" + l + tail, '/') ==
      ["", l] + (if tail == "" then [] else Split(tail[1..], '/'))
  {
    assert "/" + l + tail == "" + ['/'] + (l + tail);
    SplitAfterSeparator("", l + tail, '/');
    if tail == "" {
      SplitWithoutSeparator(l, '/');
      assert l + tail == l;
    } else {
      assert l + tail == l + ['/'] + tail[1..];
      SplitAfterSeparator(l, tail[1..], '/');
    }
  }

  /** The text that the prefixing branch puts after `"/" + next`: the path
      with a leading '/', or nothing for `/` and the empty path. */
  function PrefixTail(pathname: string): (tail: string)
    ensures tail == "" || tail[0] == '/'
  {
    var tail := if StartsWith(pathname, "/") then pathname else "/" + pathname;
    if tail == "/" then "" else tail
  }

  /** Reading the locale back after a swap gives the swapped-in locale, for
      every path that starts with '/' and for every path the prefixing
      branch handles. */
  lemma InferAfterSwap(pathname: string, next: string)
    requires next in SupportedLocales
    requires StartsWith(pathname, "/") || !HasLocaleSegment(pathname)
    ensures InferCurrentLocale(SwapLocaleInPath(pathname, next)) == next
  {
    LocaleTablesTotal(next);
    var r := SwapLocaleInPath(pathname, next);
    if HasLocaleSegment(pathname) {
      assert pathname == "" + ['/'] + pathname[1..];
      SplitAfterSeparator("", pathname[1..], '/');
    }
    FirstNonEmptyOfSecond(Split(r, '/'));
  }

  /** A relative path whose second piece is a locale keeps its first piece in
      front, so the locale read back is not the one swapped in. */
  lemma InferAfterSwapRelativePath()
    ensures SwapLocaleInPath("x/de", "fr") == "x/fr"
    ensures InferCurrentLocale("x/fr") == "en"
  {
    SplitTwo("x", "de", '/');
    assert "de" in SupportedLocales;
    assert ["x", "de"][1 := "fr"] == ["x", "fr"];
    assert Join(["x", "fr"], '/') == "x" + ['/'] + Join(["fr"], '/');
    SplitTwo("x", "fr", '/');
    assert "x" !in SupportedLocales;
  }

  /** The replacing branch as text: the first piece, then `next`, then the
      rest of the path unchanged. */
  lemma SwapReplacing(pathname: string, next: string)
    requires next in SupportedLocales && HasLocaleSegment(pathname)
    ensures var parts := Split(pathname, '/');
      SwapLocaleInPath(pathname, next) == parts[0] + "/" + next + JoinedAfterSecond(parts)
  {
    JoinAtSecond(Split(pathname, '/'), next);
  }

  /** Swapping twice is swapping once with the second locale. */
  lemma SwapTwice(pathname: string, first: string, second: string)
    requires first in SupportedLocales && second in SupportedLocales
    ensures SwapLocaleInPath(SwapLocaleInPath(pathname, first), second) == SwapLocaleInPath(pathname, second)
  {
    LocaleTablesTotal(first);
    if HasLocaleSegment(pathname) {
      SwapTwiceReplacing(pathname, first, second);
    } else {
      SwapTwicePrefixing(pathname, first, second);
    }
  }

  lemma SwapTwiceReplacing(pathname: string, first: string, second: string)
    requires first in SupportedLocales && second in SupportedLocales && HasLocaleSegment(pathname)
    ensures SwapLocaleInPath(SwapLocaleInPath(pathname, first), second) == SwapLocaleInPath(pathname, second)
  {
    var once := SwapLocaleInPath(pathname, first);
    var parts := Split(pathname, '/');
    SwapReplacing(pathname, first);
    SwapReplacing(pathname, second);
    SwapReplacing(once, second);
    assert parts[1 := first][2..] == parts[2..];
  }

  lemma SwapTwicePrefixing(pathname: string, first: string, second: string)
    requires first in SupportedLocales && second in SupportedLocales && !HasLocaleSegment(pathname)
    ensures SwapLocaleInPath(SwapLocaleInPath(pathname, first), second) == SwapLocaleInPath(pathname, second)
  {
    SwapOfPrefixed(first, PrefixTail(pathname), second);
  }

  /** A path that already starts with a locale segment gets it replaced. */
  lemma SwapOfPrefixed(l: string, tail: string, next: string)
    requires l in SupportedLocales && next in SupportedLocales
    requires tail == "" || tail[0] == '/'
    ensures SwapLocaleInPath("/" + l + tail, next) == "/" + next + tail
  {
    LocaleTablesTotal(l);
    var path := "/" + l + tail;
    var parts := Split(path, '/');
    SplitPrefixed(l, tail);
    assert HasLocaleSegment(path);
    SwapReplacing(path, next);
    JoinSplit(path, '/');
    JoinAtSecond(parts, l);
    assert parts[1 := l] == parts;
    var after := JoinedAfterSecond(parts);
    assert path == "/" + l + after;
    assert after == path[|l| + 1..] == tail;
  }

  // ---------- the listbox ----------

  datatype ListboxOption = ListboxOption(locale: string, flag: Flag, caption: string, disabled: bool, title: Option<string>)

  /** The options rendered for the selected `value`: one per supported locale,
      in order, the selected one disabled with the title `Already selected`. */
  function Options(value: string): (options: seq<ListboxOption>)
    ensures |options| == |SupportedLocales|
    ensures forall i :: 0 <= i < |options| ==>
      && options[i].locale == SupportedLocales[i]
      && options[i].flag == Flags[SupportedLocales[i]]
      && options[i].caption == Labels[SupportedLocales[i]]
      && (options[i].disabled <==> SupportedLocales[i] == value)
      && (options[i].title.Some? <==> options[i].disabled)
  {
    seq(|SupportedLocales|, i requires 0 <= i < |SupportedLocales| =>
      var loc := SupportedLocales[i];
      ListboxOption(loc, Flags[loc], Labels[loc], loc == value,
                    if loc == value then Some("Already selected") else None))
  }

  /** The locales are distinct, so exactly one option is disabled when the
      selected value is supported, and none otherwise. */
  lemma ExactlyOneOptionDisabled(value: string)
    ensures value in SupportedLocales ==>
      exists i :: 0 <= i < |Options(value)| && Options(value)[i].disabled
        && forall j :: 0 <= j < |Options(value)| && Options(value)[j].disabled ==> j == i
    ensures value !in SupportedLocales ==>
      forall j :: 0 <= j < |Options(value)| ==> !Options(value)[j].disabled
  {
    var options := Options(value);
    if value in SupportedLocales {
      var i :| 0 <= i < |SupportedLocales| && SupportedLocales[i] == value;
      assert options[i].disabled;
      forall j | 0 <= j < |options| && options[j].disabled ensures j == i {
        assert SupportedLocales[j] == SupportedLocales[i];
      }
    }
  }

  /** The state of one `LanguageSelector`: the path it was rendered for, the
      selected value, and the value last stored under `preferred_locale`
      (cookie and local storage). */
  class Selector {
    var pathname: string
    var value: string
    var preferred: Option<string>

    predicate Valid()
      reads this
    {
      value in SupportedLocales
    }

    /** `useState(current)` on first render. */
    constructor (pathname: string)
      ensures Valid()
      ensures this.pathname == pathname && value == InferCurrentLocale(pathname) && preferred == None
    {
      this.pathname := pathname;
      value := InferCurrentLocale(pathname);
      preferred := None;
    }

    /** A render for a new path. The effect that follows the locale runs
      only when the locale read off the path differs from the one of the
      previous render, and then makes it the selection; a path with the same
      locale keeps whatever was selected. */
    method Navigate(pathname: string)
      requires Valid()
      modifies this
      ensures Valid()
      ensures this.pathname == pathname
      ensures InferCurrentLocale(pathname) != InferCurrentLocale(old(this.pathname)) ==>
        value == InferCurrentLocale(pathname)
      ensures InferCurrentLocale(pathname) == InferCurrentLocale(old(this.pathname)) ==>
        value == old(value)
      ensures preferred == old(preferred)
    {
      var previous := InferCurrentLocale(this.pathname);
      this.pathname := pathname;
      var current := InferCurrentLocale(pathname);
      if current != previous {
        value := current;
      }
    }

    /** `onChange`: choosing the selected locale does nothing; any other
      locale becomes the selection and is stored as the preferred one. The
      path is not changed (the navigation is commented out in the source). */
    method OnChange(next: string)
      requires Valid() && next in SupportedLocales
      modifies this
      ensures Valid()
      ensures pathname == old(pathname)
      ensures next == old(value) ==> value == old(value) && preferred == old(preferred)
      ensures next != old(value) ==> value == next && preferred == Some(next)
    {
      if next == value {
        return;
      }
      value := next;
      preferred := Some(next);
    }

    /** The rendered options of this selector. */
    function RenderedOptions(): (options: seq<ListboxOption>)
      reads this
      requires Valid()
      ensures forall i :: 0 <= i < |options| ==> (options[i].disabled <==> options[i].locale == value)
    {
      Options(value)
    }
  }

  /** A choice survives navigation to another path with the same locale:
      mounted on `from`, choosing another supported locale and then moving
      to `to`, which reads as the same locale as `from`, keeps the choice. */
  method ChoiceSurvivesSameLocaleNavigation(from: string, to: string, next: string) returns (selected: string)
    requires InferCurrentLocale(from) == InferCurrentLocale(to) && next in SupportedLocales
    ensures selected == next
  {
    var selector := new Selector(from);
    selector.OnChange(next);
    selector.Navigate(to);
    selected := selector.value;
  }

  /** Two different paths that read as the same locale: `/x` and `/y` both
      read as `en`, so a choice made on one survives moving to the other. */
  lemma SameLocalePaths()
    ensures InferCurrentLocale("/x") == "en" && InferCurrentLocale("/y") == "en"
  {
    InferSingleSegment("x");
    InferSingleSegment("y");
    assert "/x" == "/" + "x" && "/y" == "/" + "y";
  }
}
