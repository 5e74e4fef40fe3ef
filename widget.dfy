/** The whole script: one navigator and one page loader, with the document's click
    and keydown events run through the script's listeners in the order they were
    registered. The popup's `hidden` class lives in the navigator and also gates
    the page keys. */
module Widget {
  import opened Highlight
  import opened Menu
  import opened Pages

  /** Where a click lands. Page buttons sit after the home button, outside both
      the popup and the home button. MenuItem(i, onLink) is a click in item i,
      onLink saying whether its target is the item's link element itself;
      InPopup is a click inside the popup but in no item; Elsewhere is a click
      outside both the popup and the home button. */
  datatype Target = HomeButton | PageButton(page: nat) | MenuItem(item: nat, onLink: bool) | InPopup | Elsewhere

  /** The keys that toggle the popup. */
  predicate IsToggleKey(key: string)
  {
    key == "`" || key == "~" || key == "."
  }

  /** The keys that load page 0 directly. */
  predicate IsHomeKey(key: string)
  {
    key == "0" || key == "w"
  }

  /** The keys the test /^[1-9]$/ accepts. */
  predicate IsPageDigit(key: string)
  {
    |key| == 1 && '1' <= key[0] <= '9'
  }

  function DigitOf(key: string): (d: nat)
    requires IsPageDigit(key)
    ensures 1 <= d <= 9 && DecimalString(d) == key
  {
    var d := (key[0] as int) - ('0' as int);
    assert [DigitChar(d)] == key;
    d
  }

  class Widget {
    const menu: Navigator
    const pages: PageLoader

    ghost predicate Valid()
      reads this, menu, menu.selected, pages, pages.active
    {
      menu.Valid() && pages.Valid() && menu.selected != pages.active
    }

    /** The state right after the script's top level has run, before the first
        page arrives: eight inactive buttons, an empty cache, no selection. */
    constructor (links: seq<bool>, hidden: bool)
      ensures Valid() && fresh(menu) && fresh(menu.selected) && fresh(pages) && fresh(pages.active)
      ensures menu.links == links && menu.State() == MenuState(hidden, -1)
      ensures pages.View() == LoaderState(map[], "", OneHot(-1, PageCount))
    {
      menu := new Navigator(links, hidden);
      pages := new PageLoader();
    }

    /** Startup: loadPage(0), and once it has settled, whichever way,
        preloadPages. The preload only fills the cache, so the first page shown
        and its button stay as loadPage(0) left them. */
    method Startup(first: Fetch, outcomes: seq<Fetch>)
      requires Valid() && |outcomes| == PageCount
      modifies pages, pages.active
      ensures Valid() && menu.State() == old(menu.State())
      ensures var v := Load(old(pages.View()), 0, first);
        pages.View() == v.(cache := Preloaded(v.cache, outcomes, PageCount))
    {
      var _ := pages.LoadPage(0, first);
      pages.PreloadPages(outcomes);
    }

    /** button.click() on page button k: its own listener loads page k, then
        the click bubbles to the document listener, which finds it outside the
        popup and the home button and so hides the popup. */
    method ClickPageButton(k: nat, f: Fetch)
      requires Valid() && k < PageCount
      modifies menu, menu.selected, pages, pages.active
      ensures Valid()
      ensures pages.View() == Load(old(pages.View()), k, f)
      ensures menu.State() == MenuState(true, -1)
    {
      var _ := pages.LoadPage(k, f);
      menu.DocumentClick(false, false);
    }

    /** A click, run through the target's own listener and then the document's.
        `f` is how page k's fetch completes when the target is page button k. */
    method Click(t: Target, f: Fetch) returns (act: Activation)
      requires Valid()
      requires t.PageButton? ==> t.page < PageCount
      requires t.MenuItem? ==> t.item < |menu.links| && (t.onLink ==> menu.links[t.item])
      modifies menu, menu.selected, pages, pages.active
      ensures Valid()
      ensures t.HomeButton? ==> menu.State() == MenuState(!old(menu.hidden), -1)
      ensures t.PageButton? ==> pages.View() == Load(old(pages.View()), t.page, f)
      ensures t.PageButton? || t.Elsewhere? ==> menu.State() == MenuState(true, -1)
      ensures t.MenuItem? || t.InPopup? ==> menu.State() == old(menu.State())
      ensures !t.PageButton? ==> pages.View() == old(pages.View())
      ensures t.MenuItem? && menu.links[t.item] ==> (act == Link(t.item) <==> !t.onLink)
      ensures t.MenuItem? && !menu.links[t.item] ==> act == Nothing
      ensures act != Nothing ==> t.MenuItem? && act == Link(t.item) && !t.onLink
    {
      act := Nothing;
      match t {
        case HomeButton =>
          menu.Toggle();
          menu.DocumentClick(false, true);
        case PageButton(k) =>
          ClickPageButton(k, f);
        case MenuItem(i, onLink) =>
          // The forwarded click on the link bubbles back through this listener
          // with the link as target, and then to the document inside the menu:
          // neither does anything more.
          act := menu.ItemClick(i, onLink);
          menu.DocumentClick(true, false);
        case InPopup =>
          menu.DocumentClick(true, false);
        case Elsewhere =>
          menu.DocumentClick(false, false);
      }
    }

    /** A keydown, run through the toggle listener, the page-key listener and
        the arrow-key listener in that order. `f` is how the fetch of the page a
        page key asks for completes. */
    method KeyDown(key: string, f: Fetch) returns (act: Activation)
      requires Valid()
      modifies menu, menu.selected, pages, pages.active
      ensures Valid()
      ensures IsToggleKey(key) ==>
        menu.State() == MenuState(!old(menu.hidden), -1) && pages.View() == old(pages.View()) && act == Nothing
      ensures old(menu.hidden) && IsHomeKey(key) ==>
        pages.View() == Load(old(pages.View()), 0, f) && menu.State() == old(menu.State()) && act == Nothing
      ensures old(menu.hidden) && IsPageDigit(key) && DigitOf(key) < PageCount ==>
        pages.View() == Load(old(pages.View()), DigitOf(key), f) && menu.State() == MenuState(true, -1) && act == Nothing
      ensures old(menu.hidden) && IsPageDigit(key) && DigitOf(key) >= PageCount ==>
        pages.View() == old(pages.View()) && menu.State() == old(menu.State()) && act == Nothing
      ensures !IsToggleKey(key) && !(old(menu.hidden) && (IsHomeKey(key) || IsPageDigit(key))) ==>
        pages.View() == old(pages.View()) && (menu.State(), act) == Navigate(old(menu.State()), key, menu.links)
    {
      if IsToggleKey(key) {
        menu.Toggle();
      }
      if menu.hidden {
        if IsHomeKey(key) {
          var _ := pages.LoadPage(0, f);
        } else if IsPageDigit(key) {
          var k := DigitOf(key);
          if k < PageCount {
            ClickPageButton(k, f);
          }
        }
      }
      act := menu.NavigateKey(key);
    }
  }
}
