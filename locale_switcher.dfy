/** Model of `setLocale` in frontend/components/common/LocaleSwitcher.tsx:
    choosing a locale stores it and, in pathname mode, rewrites the second
    piece of the path. */
module LocaleSwitcher {
  import opened Text
  import opened Segments
  import opened Routing

  datatype Navigation = Push(path: string) | Refresh

  datatype SwitchEffect =
    | Unchanged
    | Switched(stored: string, navigation: Navigation)   // `NEXT_LOCALE` in cookie and local storage

  /** `setLocale(next)` for the page at `path` showing `locale`. The second
      piece counts as a locale segment when its JavaScript length, in UTF-16
      code units, is two. */
  method SetLocale(mode: string, path: string, locale: string, next: string) returns (effect: SwitchEffect)
    ensures next == locale <==> effect == Unchanged
    ensures effect.Switched? ==> effect.stored == next
    ensures effect.Switched? ==> (effect.navigation.Push? <==> mode == PathnameMode)
    ensures effect.Switched? && effect.navigation.Push? && '/' !in next ==>
      var before := Split(path, '/');
      var after := Split(effect.navigation.path, '/');
      && |after| > 1 && after[1] == next
      && (|before| > 1 && Utf16Length(before[1]) == 2 ==> after == before[1 := next])
      && (!(|before| > 1 && Utf16Length(before[1]) == 2) ==> after == before[..1] + [next] + before[1..])
  {
    if next == locale {
      return Unchanged;
    }
    if mode == PathnameMode {
      var parts := Split(path, '/');
      if |parts| > 1 && Utf16Length(parts[1]) == 2 {
        parts := parts[1 := next];
      } else {
        parts := parts[..1] + [next] + parts[1..];
      }
      var pushed := Join(parts, '/');
      if '/' !in next {
        SplitJoin(parts, '/');
      }
      return Switched(next, Push(pushed));
    }
    return Switched(next, Refresh);
  }

  /** A single character outside the Basic Multilingual Plane has length two
      in JavaScript, so it is taken for a locale segment and replaced. */
  method AstralSegmentIsReplaced() returns (effect: SwitchEffect)
    ensures effect == Switched("de", Push("/de"))
  {
    var path := "/\U{1F600}";
    assert Split(path, '/') == ["", "\U{1F600}"] by {
      SplitAfterSeparator("", "\U{1F600}", '/');
      SplitWithoutSeparator("\U{1F600}", '/');
      assert path == "" + ['/'] + "\U{1F600}";
    }
    assert Utf16Length("\U{1F600}") == 2;
    effect := SetLocale(PathnameMode, path, "en", "de");
    var pushed := effect.navigation.path;
    JoinSplit(pushed, '/');
    assert Split(pushed, '/') == ["", "de"];
    assert Join(["", "de"], '/') == "" + ['/'] + Join(["de"], '/');
  }
}
