/** The popup-menu navigator: visibility of the popup, the selected item index
    (-1 for none) and the "selected" class on each of the N list items, which are
    captured once when the script starts and never change. */
module Menu {
  import opened Highlight

  /** What a handler activated by a programmatic click: nothing, the inner link of
      item i, or item i itself. Where the activation leads is not modelled. */
  datatype Activation = Nothing | Link(item: nat) | Item(item: nat)

  /** The navigator's state: whether the popup carries the `hidden` class, and the
      selected index. */
  datatype MenuState = MenuState(hidden: bool, index: int)

  /** The range the selected index stays in over a menu of n items. */
  predicate InRange(index: int, n: nat)
  {
    -1 <= index < n
  }

  /** ArrowDown: the next item, wrapping from the last one to the first; from no
      selection it selects the first item. */
  function Down(i: int, n: nat): (r: int)
    requires n > 0 && InRange(i, n)
    ensures 0 <= r < n
    ensures r == (i + 1) % n
  {
    if i == n - 1 then 0 else i + 1
  }

  /** ArrowUp: the previous item, wrapping from the first item, and from no
      selection, to the last one. It undoes Down on a selected item. */
  function Up(i: int, n: nat): (r: int)
    requires n > 0 && InRange(i, n)
    ensures 0 <= r < n
    ensures (r + 1) % n == if i < 0 then 0 else i
  {
    if i <= 0 then n - 1 else i - 1
  }

  /** The selected index after k presses of ArrowDown. */
  function DownTimes(i: int, n: nat, k: nat): (r: int)
    requires n > 0 && InRange(i, n)
    ensures InRange(r, n)
    decreases k
  {
    if k == 0 then i else DownTimes(Down(i, n), n, k - 1)
  }

  /** The arrow-key listener: inert while the popup is hidden or the menu is
      empty; otherwise ArrowDown and ArrowUp move the selection, and Enter
      activates the selected item's link, or the item itself when it has none.
      links[i] says whether item i wraps a link. */
  function Navigate(s: MenuState, key: string, links: seq<bool>): (r: (MenuState, Activation))
    requires InRange(s.index, |links|)
    ensures r.0.hidden == s.hidden && InRange(r.0.index, |links|)
    ensures s.hidden || |links| == 0 ==> r == (s, Nothing)
    ensures r.1 != Nothing ==> key == "Enter" && r.0 == s && r.1.item == s.index && (r.1.Link? <==> links[s.index])
    ensures key == "Enter" ==> r.0 == s && (r.1 != Nothing <==> !s.hidden && s.index >= 0)
    ensures !s.hidden && |links| > 0 && key == "ArrowDown" ==> r.0.index == Down(s.index, |links|)
    ensures !s.hidden && |links| > 0 && key == "ArrowUp" ==> r.0.index == Up(s.index, |links|)
    ensures key != "ArrowDown" && key != "ArrowUp" && key != "Enter" ==> r == (s, Nothing)
  {
    var n := |links|;
    if s.hidden || n == 0 then (s, Nothing)
    else if key == "ArrowDown" then (MenuState(s.hidden, Down(s.index, n)), Nothing)
    else if key == "ArrowUp" then (MenuState(s.hidden, Up(s.index, n)), Nothing)
    else if key == "Enter" && s.index >= 0 then
      (s, if links[s.index] then Link(s.index) else Item(s.index))
    else (s, Nothing)
  }

  /** Up and Down are inverse on selected items. */
  lemma UpDownInverse(i: int, n: nat)
    requires 0 <= i < n
    ensures Up(Down(i, n), n) == i && Down(Up(i, n), n) == i
  {
  }

  /** A positive multiple of n is at least n. */
  lemma MulAtLeast(d: int, n: int)
    requires d >= 1 && n > 0
    ensures d * n >= n
  {
  }

  /** Euclidean remainder is unique: a quotient-remainder pair for a fixes a % n. */
  lemma ModUnique(a: int, n: int, q: int, m: int)
    requires n > 0 && 0 <= m < n && a == q * n + m
    ensures a % n == m
  {
    var q0, m0 := a / n, a % n;
    assert a == q0 * n + m0;
    assert (q - q0) * n == m0 - m;
    if q > q0 {
      MulAtLeast(q - q0, n);
    } else if q < q0 {
      MulAtLeast(q0 - q, n);
    }
  }

  /** Adding n to a non-negative count does not change its residue. */
  lemma ModShift(x: nat, n: nat)
    requires n > 0
    ensures (x + n) % n == x % n
  {
    var q, m := x / n, x % n;
    assert x == q * n + m;
    assert x + n == (q + 1) * n + m;
    ModUnique(x + n, n, q + 1, m);
  }

  /** k presses of ArrowDown from a selected item advance it by k modulo n. */
  lemma {:induction false} DownTimesMod(i: int, n: nat, k: nat)
    requires 0 <= i < n
    ensures DownTimes(i, n, k) == (i + k) % n
    decreases k
  {
    if k > 0 {
      DownTimesMod(Down(i, n), n, k - 1);
      if i == n - 1 {
        ModShift(k - 1, n);
        assert (k - 1) + n == i + k;
      }
    }
  }

  /** Pressing ArrowDown n times returns to the same item. */
  lemma ArrowDownCycles(i: int, n: nat)
    requires 0 <= i < n
    ensures DownTimes(i, n, n) == i
  {
    DownTimesMod(i, n, n);
    ModShift(i, n);
  }

  /** From no selection, the first press selects item 0 and the selection then
      repeats with period n: press k + 1 selects item k mod n. */
  lemma ArrowDownFromNone(n: nat, k: nat)
    requires n > 0
    ensures DownTimes(-1, n, 1) == 0
    ensures DownTimes(-1, n, k + 1) == k % n
    ensures DownTimes(-1, n, n + 1) == DownTimes(-1, n, 1)
  {
    DownTimesMod(0, n, k);
    DownTimesMod(0, n, n);
  }

  /** The menu as the page holds it. */
  class Navigator {
    var hidden: bool
    var currentIndex: int
    /** links[i]: whether list item i wraps a link; its length is the item count N. */
    const links: seq<bool>
    /** selected[i]: whether item i carries the "selected" class. */
    const selected: array<bool>

    /** The index stays in [-1, N-1], and exactly the selected item is highlighted. */
    ghost predicate Valid()
      reads this, selected
    {
      selected.Length == |links| && InRange(currentIndex, |links|)
      && selected[..] == OneHot(currentIndex, |links|)
    }

    function State(): MenuState
      reads this
    {
      MenuState(hidden, currentIndex)
    }

    /** Script start: nothing selected, no item highlighted; whether the popup
        starts hidden is up to the page's markup. */
    constructor (links: seq<bool>, hidden: bool)
      ensures Valid() && fresh(selected)
      ensures this.links == links && State() == MenuState(hidden, -1)
    {
      this.links := links;
      this.hidden := hidden;
      currentIndex := -1;
      selected := new bool[|links|](_ => false);
    }

    /** updateMenuSelection: give the "selected" class to exactly the item at
        currentIndex. */
    method UpdateMenuSelection()
      requires selected.Length == |links| && InRange(currentIndex, |links|)
      modifies selected
      ensures Valid()
    {
      for k := 0 to selected.Length
        invariant forall j :: 0 <= j < k ==> selected[j] == (j == currentIndex)
      {
        selected[k] := k == currentIndex;
      }
      assert selected[..] == OneHot(currentIndex, |links|);
    }

    /** The home button and the backtick, tilde and period keys: flip the
        popup's visibility and drop the selection, whichever way it went. */
    method Toggle()
      requires Valid()
      modifies this, selected
      ensures Valid() && State() == MenuState(!old(hidden), -1)
    {
      hidden := !hidden;
      if !hidden {
        currentIndex := -1;
        UpdateMenuSelection();
      } else {
        currentIndex := -1;
        UpdateMenuSelection();
      }
    }

    /** The document click listener: a click outside both the popup and the home
        button hides the popup and drops the selection; any other click leaves
        the menu alone. */
    method DocumentClick(insideMenu: bool, onHomeButton: bool)
      requires Valid()
      modifies this, selected
      ensures Valid()
      ensures !insideMenu && !onHomeButton ==> State() == MenuState(true, -1)
      ensures insideMenu || onHomeButton ==> State() == old(State()) && unchanged(selected)
    {
      if !insideMenu && !onHomeButton {
        hidden := true;
        currentIndex := -1;
        UpdateMenuSelection();
      }
    }

    /** The mouseover listener of item i: select it, redrawing only when the
        selection changes, so hovering the selected item again changes nothing. */
    method Hover(i: nat)
      requires Valid() && i < |links|
      modifies this, selected
      ensures Valid() && State() == MenuState(old(hidden), i)
      ensures old(currentIndex) == i ==> unchanged(this) && unchanged(selected)
    {
      if currentIndex != i {
        currentIndex := i;
        UpdateMenuSelection();
      }
    }

    /** The click listener of item i: a click whose target is not the item's
        link element itself is forwarded to that link; onLink says the target
        is the link element. So for a click on the link element or on the rest
        of the item, the link is followed once, natively or by the forwarded
        click. */
    method ItemClick(i: nat, onLink: bool) returns (act: Activation)
      requires i < |links| && (onLink ==> links[i])
      ensures act == Nothing || act == Link(i)
      ensures links[i] ==> (act == Link(i) <==> !onLink)
      ensures !links[i] ==> act == Nothing
    {
      act := Nothing;
      if links[i] && !onLink {
        act := Link(i);
      }
    }

    /** The arrow-key listener, acting on the fields; the item list is re-read on
        every key, which gives the same N items. */
    method NavigateKey(key: string) returns (act: Activation)
      requires Valid()
      modifies this, selected
      ensures Valid() && (State(), act) == Navigate(old(State()), key, links)
    {
      act := Nothing;
      if hidden {
        return;
      }
      var n := |links|;
      if n == 0 {
        return;
      }
      if key == "ArrowDown" {
        if currentIndex == n - 1 {
          currentIndex := 0;
        } else {
          currentIndex := currentIndex + 1;
        }
        UpdateMenuSelection();
      }
      if key == "ArrowUp" {
        if currentIndex <= 0 {
          currentIndex := n - 1;
        } else {
          currentIndex := currentIndex - 1;
        }
        UpdateMenuSelection();
      }
      if key == "Enter" && currentIndex >= 0 {
        if links[currentIndex] {
          act := Link(currentIndex);
        } else {
          act := Item(currentIndex);
        }
      }
    }
  }
}
