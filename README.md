# Page navigation widget: a Dafny model of `script.js`

`script.js` is a small client-side widget with two parts. The rest of the
script is DOM wiring, and both parts are modelled here as classes whose fields
stand in for that DOM state.

- **Page loader and cache** (`pages.dfy`, module `Pages`). `loadPage(p)` shows
  the numbered HTML fragment for page p. It serves the fragment from `pageCache`
  when it is there. Otherwise it fetches the fragment, caches it and shows it. A
  failed fetch shows the placeholder `Error loading page p`. Eight page buttons
  (0..7) are painted so that only the one for the last page loaded successfully
  is active. A failed load leaves the buttons as they were.
  `preloadPages` fetches pages 0..7 in the background and puts them in the cache.
  Class `PageLoader` holds three fields:
  - `cache`: a `map<nat, string>`
  - `content`: the content container's markup
  - `active`: an `array<bool>` of the eight button highlights

  The pure function `Load` specifies one completed `loadPage`, and `Preloaded`
  specifies the preload's cache writes.
- **Popup-menu navigator** (`menu.dfy`, module `Menu`). It tracks the popup's
  `hidden` flag, the selected item index `currentIndex`, which is -1 or an item
  index, and the "selected" class on each of the N list items. N is fixed when
  the script starts. Class `Navigator` keeps the invariant `Valid()`:
  - `currentIndex` stays in [-1, N-1];
  - the highlight array equals `OneHot(currentIndex, N)`, so exactly the
    selected item is highlighted, and no item when the index is -1.

  `Down`, `Up` and `Navigate` specify the arrow-key listener.
- **Dispatch** (`widget.dfy`, module `Widget`). Class `Widget` owns one
  navigator and one loader. Clicks and keydowns pass through the script's
  listeners in the order they were registered:
  1. the toggle keys;
  2. the page keys, which are active only while the popup is hidden;
  3. the arrow keys.

  A click reaches the element's own listener first and then the document's.
- **Highlights** (`highlight.dfy`, module `Highlight`). `OneHot` and `CountTrue`
  give the "exactly one highlighted" vocabulary that the menu items and the page
  buttons share.

A fetch is modelled as an outcome parameter, either `Response(ok, text)` or
`NetworkError`. Each `loadPage` therefore runs as one atomic step that ends when
its fetch has completed.

Behaviour of the script worth knowing; the model follows the code:
- **Empty cache entries.** The cache test is JavaScript truthiness (script.js:37).
  A page cached as the empty string is a miss and is fetched again
  (`EmptyPageRefetched`).
- **`preloadPages` is unconditional.** It does not skip pages that are already
  cached. It does not check `response.ok`, so a non-ok response body is cached and
  overwrites the old entry (script.js:14-19). As a result, a later `loadPage`
  shows an error page's body as the page, with no fetch and no placeholder
  (`PreloadedErrorBodyShown`).
- **Page buttons close the popup.** A click on a page button also reaches the
  document's outside-click listener, because the buttons lie outside the popup
  and the home button. That click hides the popup and resets `currentIndex` to -1.
  The digit keys '1'..'7' reach the button the same way, through `button.click()`.
  The '0' and 'w' keys call `loadPage(0)` directly and leave the menu alone.
- **Hover has no visibility check.** The mouseover listener does not test whether
  the popup is hidden, so `Hover` has no visibility requirement either.

## Model

| member | source | states |
|---|---|---|
| Highlight.OneHotCount | script.js:186-190 | the selection pattern marks exactly one element when the index is valid and none when it is -1 or out of range |
| Highlight.SingleMarkIsOneHot | script.js:59-64 | a highlight vector with exactly one mark, at k, is the pattern that marks k and nothing else |
| Menu.Down | script.js:155-163 | ArrowDown yields an index in [0, N-1] equal to (i + 1) mod N, so the last item wraps to 0 and -1 goes to 0 |
| Menu.Up | script.js:165-173 | ArrowUp yields an index in [0, N-1] that ArrowDown maps back to i, or to 0 when i is -1, so 0 and -1 both go to N-1 |
| Menu.UpDownInverse | script.js:155-173 | on a selected item, ArrowUp undoes ArrowDown and ArrowDown undoes ArrowUp |
| Menu.DownTimesMod | script.js:155-163 | k presses of ArrowDown from item i select item (i + k) mod N |
| Menu.ArrowDownCycles | script.js:155-163 | N presses of ArrowDown return to the same item |
| Menu.ArrowDownFromNone | script.js:155-163 | from no selection, press k + 1 selects item k mod N, so press N + 1 selects the same item as press 1 |
| Menu.DownTimes | script.js:155-163 | the selection after k ArrowDown presses; it stays in [-1, N-1], and DownTimesMod, ArrowDownCycles and ArrowDownFromNone state its value |
| Menu.Navigate | script.js:149-183 | the arrow-key listener keeps the popup's visibility and keeps the index in [-1, N-1]; while hidden or with no items it changes nothing and activates nothing; keys other than the arrows and Enter change nothing; Enter activates something exactly when the menu is open and an item is selected, and then the selected item's link if it has one, else the item |
| Menu.Navigator.constructor | script.js:9 | the navigator starts with no selection and no item highlighted |
| Menu.Navigator.UpdateMenuSelection | script.js:186-190 | afterwards exactly the item at currentIndex carries the selected class |
| Menu.Navigator.Toggle | script.js:98-121 | toggling flips hidden and resets the index to -1 in both directions, clearing all highlights |
| Menu.Navigator.DocumentClick | script.js:124-133 | a click outside the popup and the home button hides the popup with no selection; a click inside either changes nothing |
| Menu.Navigator.Hover | script.js:81-86 | hovering item i selects exactly i and keeps visibility; hovering the selected item again changes nothing |
| Menu.Navigator.ItemClick | script.js:89-94 | in an item with a link, the handler forwards the click to that link exactly when the target is not the link element itself, so a click on the link element or on the rest of the item follows the link once; an item without a link forwards nothing |
| Menu.Navigator.NavigateKey | script.js:149-183 | the arrow-key listener's effect on the fields and its activation are those of Navigate, and the invariant holds |
| Pages.DecimalRoundTrip | script.js:54 | reading back the decimal rendering of a page number gives the number |
| Pages.ErrorMessage | script.js:54 | the placeholder is the text "Error loading page " followed by the page number in decimal digits |
| Pages.ErrorMessageNamesPage | script.js:53-55 | distinct pages give distinct error placeholders |
| Pages.Cached | script.js:37 | the truthiness test of the cache: an entry counts as cached exactly when it is present and not the empty string; it has no contract of its own, and EmptyPageRefetched states its consequence |
| Pages.Load | script.js:35-56 | the result of one completed loadPage: the cache is either unchanged or changed only by storing the ok response text under page p, and the highlights are either unchanged or exactly button p; LoadHit, LoadMissOk and LoadFailure state its three branches |
| Pages.LoadHit | script.js:36-41 | on a truthy cache entry the outcome of any fetch is irrelevant, the cached markup is shown, the cache is unchanged and exactly button p is active |
| Pages.LoadMissOk | script.js:43-52 | on a miss with an ok response the body is cached under p and shown, and exactly button p is active |
| Pages.LoadFailure | script.js:44-55 | on a miss with a non-ok response or a network error the placeholder for p is shown while the cache and the buttons stay as they were |
| Pages.LoadTouchesOnlyItsEntry | script.js:35-56 | loading page p leaves every other cache entry, present or absent, as it was |
| Pages.ReloadIsHit | script.js:37-52 | after a load that showed non-empty page markup, loading the same page again is a hit and changes nothing |
| Pages.EmptyPageRefetched | script.js:37 | an ok empty body is stored, but the entry is still a miss |
| Pages.Preloaded | script.js:13-21 | the cache after the preload's writes to pages 0..k-1: no entry is ever removed, and new entries appear only for those pages; PreloadedAt states every entry |
| Pages.PreloadedAt | script.js:13-21 | after the preload, entry q holds page q's response body, ok or not and overwriting, when its fetch gave a response; otherwise entry q is as before |
| Pages.PreloadedErrorBodyShown | script.js:13-41 | a non-empty non-ok body cached by the preload is later shown by loadPage as the page, without a fetch |
| Pages.PageLoader.constructor | script.js:11 | the loader starts with an empty cache, an empty container and no active button, so its invariant (eight buttons, at most one active) holds |
| Pages.PageLoader.HighlightButton | script.js:59-64 | afterwards exactly the button whose page equals p is active, and none when p names no button, so at most one button is active |
| Pages.PageLoader.LoadPage | script.js:35-56 | the new cache, content and highlights are those of Load; a fetch is issued exactly on a miss; at most one button stays active |
| Pages.PageLoader.PreloadPages | script.js:13-21 | the new cache is Preloaded over pages 0..7, while the content and the button highlights are unchanged |
| Widget.DigitOf | script.js:141-142 | a key accepted by /^[1-9]$/ names page 1..9 and is that page's data-page value |
| Widget.IsToggleKey | script.js:111 | the keys backtick, tilde and period that toggle the popup; it has no contract of its own, and KeyDown states what these keys do |
| Widget.IsHomeKey | script.js:139 | the keys "0" and "w" that load page 0; it has no contract of its own, and KeyDown states what these keys do |
| Widget.IsPageDigit | script.js:141 | the keys /^[1-9]$/ accepts; it has no contract of its own, and DigitOf and KeyDown state what these keys do |
| Widget.Widget.constructor | script.js:69-79 | eight inactive page buttons, an empty cache, and a menu with no selection |
| Widget.Widget.Startup | script.js:66-68 | after startup the display and highlights are those of loadPage(0), and the cache also holds the preload's writes |
| Widget.Widget.ClickPageButton | script.js:24-32 | clicking button k loads page k and, through the outside-click listener, hides the popup with no selection |
| Widget.Widget.Click | script.js:89-133 | the home button toggles the popup; a page button loads its page and closes the popup; a click in an item changes no state, forwards only to its link, and never forwards when the item has no link; a click elsewhere in the popup changes nothing; a click outside both the popup and the home button closes the popup; only page-button clicks touch the loader |
| Widget.Widget.KeyDown | script.js:110-183 | toggle keys flip the popup and reset the selection; while hidden, '0' and 'w' load page 0, '1'..'7' load their page and reset the selection, and '8' and '9' do nothing; every other key leaves the loader alone and acts on the menu as Navigate says, which while hidden is nothing at all |

## Left out

- **Scrolling.** `window.scrollTo(0, 0)` at the start of every `loadPage` and
  `scrollIntoView` in `updateMenuSelection` are rendering side effects with no
  modelled state.
- **DOM detail.** Colours, classes and markup become booleans and strings:
  - a button's white/black versus transparent/white colours become one active flag;
  - an item's `selected` class becomes one flag;
  - the content container becomes a string.

  Fetched markup is displayed without sanitisation. That is a trust question
  and is not modelled.
- **Network and promise scheduling.** Each fetch's completion is a parameter and
  is applied atomically. Two things are not modelled:
  - `loadPage` calls that overlap in flight, where the last completion wins;
  - the order in which the preload's eight completions arrive. Each writes its
    own key, so the final cache does not depend on that order.

  A body that fails to read counts as a network error.
- **Clicks on elements nested inside an item's link.** The item listener
  compares the click target with the link element itself (script.js:91). A
  click on an icon or span inside the link is therefore forwarded and also
  followed natively, so the link is followed twice. The model's `onLink` only
  means "the target is the link element itself", so it does not cover this case.
- **Items with several links.** `querySelector('a')` takes an item's first
  link only. The model records one has-link flag per item.
- **Where activation leads.** `link.click()` and `item.click()` are recorded as
  an `Activation` value. Their navigation effect is a foreign call.
- **`event.preventDefault()`** on the arrow keys stops the browser's default
  scrolling. It has no modelled state.
- **Startup interleaving.** The model creates the eight page buttons in its
  constructors, before the first fetch completes. This matches the script,
  because those buttons are created synchronously while `loadPage(0)` waits.
- **Initial markup.** The popup's initial visibility is a constructor parameter.
  The model assumes that no item starts with the `selected` class and that the
  content container starts empty.
- **The DOM contract.** The model takes the following for granted:
  - one popup, one home button and one content container exist;
  - the page-button row is not inside the popup or the home button;
  - the menu items never change after startup, so the list re-read on each
    keydown has the same N items.
