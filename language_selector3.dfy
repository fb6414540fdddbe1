/** Model of the `DropDownMenu` of frontend/components/common/LanguageSelector3.tsx.
    Its `inferCurrentLocale` and `swapLocaleInPath`, and its locale, flag and
    label tables, are the same text as in LanguageSelector.tsx and are
    modelled once, in module LanguageSelector. */
module LanguageSelector3 {
  import opened Text
  import opened LanguageSelector

  datatype MenuItem = MenuItem(locale: string, flag: Flag, caption: string, bold: bool, marker: Option<string>)

  /** The list shown when the menu is open: one item per supported locale,
      in order; the locale of the current path is bold and marked `Check`. */
  function MenuItems(pathname: string): (items: seq<MenuItem>)
    ensures |items| == |SupportedLocales|
    ensures forall i :: 0 <= i < |items| ==>
      && items[i].locale == SupportedLocales[i]
      && items[i].flag == Flags[SupportedLocales[i]]
      && items[i].caption == Labels[SupportedLocales[i]]
      && (items[i].bold <==> SupportedLocales[i] == InferCurrentLocale(pathname))
      && (items[i].marker.Some? <==> items[i].bold)
  {
    var current := InferCurrentLocale(pathname);
    seq(|SupportedLocales|, i requires 0 <= i < |SupportedLocales| =>
      var loc := SupportedLocales[i];
      MenuItem(loc, Flags[loc], Labels[loc], loc == current, if loc == current then Some("Check") else None))
  }

  /** Exactly one item is selected, whatever the path. */
  lemma ExactlyOneItemSelected(pathname: string)
    ensures exists i ::
      && 0 <= i < |MenuItems(pathname)| && MenuItems(pathname)[i].bold
      && forall j :: 0 <= j < |MenuItems(pathname)| && MenuItems(pathname)[j].bold ==> j == i
  {
    var items := MenuItems(pathname);
    var current := InferCurrentLocale(pathname);
    var i :| 0 <= i < |SupportedLocales| && SupportedLocales[i] == current;
    assert items[i].bold;
    forall j | 0 <= j < |items| && items[j].bold ensures j == i {
      assert SupportedLocales[j] == SupportedLocales[i];
    }
  }

  /** The state of one `DropDownMenu`. Its selection is only ever set by
      the effect that follows the locale of the path, so it always is that
      locale. */
  class DropDownMenu {
    var open: bool
    var pathname: string
    var value: string

    predicate Valid()
      reads this
    {
      value == InferCurrentLocale(pathname)
    }

    constructor (pathname: string)
      ensures Valid()
      ensures !open && this.pathname == pathname && value == InferCurrentLocale(pathname)
    {
      open := false;
      this.pathname := pathname;
      value := InferCurrentLocale(pathname);
    }

    /** A render for a new path: the effect resets the selection when the
      locale read off the path changes; the menu stays open or closed. */
    method Navigate(pathname: string)
      requires Valid()
      modifies this
      ensures Valid()
      ensures this.pathname == pathname && open == old(open)
    {
      var previous := InferCurrentLocale(this.pathname);
      this.pathname := pathname;
      var current := InferCurrentLocale(pathname);
      if current != previous {
        value := current;
      }
    }

    /** `handleToggle`: flips `open` and nothing else. */
    method HandleToggle()
      modifies this
      ensures open == !old(open)
      ensures pathname == old(pathname) && value == old(value)
    {
      open := !open;
    }

    /** Two clicks on the button leave the menu as it was. */
    method ToggleTwice()
      modifies this
      ensures open == old(open) && pathname == old(pathname) && value == old(value)
    {
      HandleToggle();
      HandleToggle();
    }

    /** The button shows the flag and the label of the item that the list
      marks as selected. */
    function Button(): (face: (Flag, string))
      reads this
      requires Valid()
      ensures exists i ::
        && 0 <= i < |MenuItems(pathname)| && MenuItems(pathname)[i].bold
        && face == (MenuItems(pathname)[i].flag, MenuItems(pathname)[i].caption)
    {
      var current := InferCurrentLocale(pathname);
      LocaleTablesTotal(value);
      LocaleTablesTotal(current);
      var i :| 0 <= i < |SupportedLocales| && SupportedLocales[i] == current;
      assert MenuItems(pathname)[i].bold;
      (Flags[current], Labels[value])
    }

    /** The list is rendered only while the menu is open, and then it marks
      exactly the locale whose label the button shows. */
    function Shown(): (items: seq<MenuItem>)
      reads this
      requires Valid()
      ensures !open ==> items == []
      ensures open ==> |items| == |SupportedLocales|
      ensures open ==> forall i :: 0 <= i < |items| ==> (items[i].bold <==> items[i].locale == value)
    {
      if open then MenuItems(pathname) else []
    }
  }
}
