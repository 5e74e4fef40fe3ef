/** The page loader: numbered HTML fragments fetched on demand and cached by page
    number, the displayed content, and the row of page buttons 0..7 of which the
    one for the displayed page is painted active. */
module Pages {
  import opened Highlight

  /** Buttons 0..7 are created at startup, and preloading covers the same pages. */
  const PageCount: nat := 8

  /** How one fetch of a page's file completes: an HTTP response, whose `ok` flag
      says whether the status was successful and whose body text is available
      either way, or a network error. */
  datatype Fetch = Response(ok: bool, text: string) | NetworkError

  /** The cache test of loadPage is JavaScript truthiness: an entry holding the
      empty string counts as absent. */
  predicate Cached(cache: map<nat, string>, p: nat)
  {
    p in cache && cache[p] != ""
  }

  /** The loader's observable state: the cache, the content container's markup,
      and which of the eight buttons is painted active. */
  datatype LoaderState = LoaderState(cache: map<nat, string>, content: string, active: seq<bool>)

  function DigitChar(d: nat): char
    requires d < 10
  {
    (('0' as int) + d) as char
  }

  predicate IsDigits(s: string)
  {
    forall i :: 0 <= i < |s| ==> '0' <= s[i] <= '9'
  }

  /** The decimal rendering a template literal gives a non-negative integer. */
  function DecimalString(n: nat): (s: string)
    ensures |s| >= 1 && IsDigits(s)
    ensures n >= 10 <==> |s| > 1
  {
    if n < 10 then [DigitChar(n)] else DecimalString(n / 10) + [DigitChar(n % 10)]
  }

  /** The number a string of decimal digits denotes. */
  function DecimalValue(s: string): nat
    requires IsDigits(s)
  {
    if s == [] then 0 else DecimalValue(s[..|s| - 1]) * 10 + ((s[|s| - 1] as int) - ('0' as int))
  }

  /** Reading back the rendering of n gives n. */
  lemma {:induction false} DecimalRoundTrip(n: nat)
    ensures DecimalValue(DecimalString(n)) == n
  {
    if n >= 10 {
      var s := DecimalString(n);
      assert s[..|s| - 1] == DecimalString(n / 10);
      DecimalRoundTrip(n / 10);
    }
  }

  /** The placeholder shown when a page cannot be loaded. */
  function ErrorMessage(p: nat): (r: string)
    ensures |r| > 19 && r[..19] == "Error loading page " && IsDigits(r[19..])
  {
    "Error loading page " + DecimalString(p)
  }

  /** The placeholder names the page: distinct pages give distinct messages. */
  lemma ErrorMessageNamesPage(p: nat, q: nat)
    requires ErrorMessage(p) == ErrorMessage(q)
    ensures p == q
  {
    assert ErrorMessage(p)[19..] == DecimalString(p);
    assert ErrorMessage(q)[19..] == DecimalString(q);
    DecimalRoundTrip(p);
    DecimalRoundTrip(q);
  }

  /** loadPage(p) once its fetch, if it issues one, has completed with f. A cache
      hit shows the cached markup and paints button p; a miss whose response is
      ok caches and shows the body and paints button p; any other miss shows the
      placeholder and leaves cache and buttons alone. */
  function Load(v: LoaderState, p: nat, f: Fetch): (r: LoaderState)
    ensures r.cache == v.cache || (f.Response? && f.ok && r.cache == v.cache[p := f.text])
    ensures r.active == v.active || r.active == OneHot(p, PageCount)
  {
    if Cached(v.cache, p) then v.(content := v.cache[p], active := OneHot(p, PageCount))
    else if f.Response? && f.ok then LoaderState(v.cache[p := f.text], f.text, OneHot(p, PageCount))
    else v.(content := ErrorMessage(p))
  }

  /** A hit issues no fetch: the result does not depend on the outcome, shows the
      cached markup, keeps the cache, and marks exactly the button of page p. */
  lemma LoadHit(v: LoaderState, p: nat, f: Fetch, g: Fetch)
    requires Cached(v.cache, p)
    ensures Load(v, p, f) == Load(v, p, g)
    ensures Load(v, p, f).content == v.cache[p] && Load(v, p, f).cache == v.cache
    ensures p < PageCount ==> CountTrue(Load(v, p, f).active) == 1 && Load(v, p, f).active[p]
  {
    OneHotCount(p, PageCount);
  }

  /** A miss with an ok response stores and shows the body and marks exactly the
      button of page p. */
  lemma LoadMissOk(v: LoaderState, p: nat, text: string)
    requires !Cached(v.cache, p)
    ensures var r := Load(v, p, Response(true, text));
      r.cache == v.cache[p := text] && r.content == text
      && (p < PageCount ==> CountTrue(r.active) == 1 && r.active[p])
  {
    OneHotCount(p, PageCount);
  }

  /** A failed fetch never writes the cache and never repaints the buttons; the
      placeholder names the page. */
  lemma LoadFailure(v: LoaderState, p: nat, f: Fetch)
    requires !Cached(v.cache, p) && !(f.Response? && f.ok)
    ensures Load(v, p, f) == LoaderState(v.cache, ErrorMessage(p), v.active)
  {
  }

  /** Loading page p touches no other cache entry. */
  lemma LoadTouchesOnlyItsEntry(v: LoaderState, p: nat, f: Fetch, q: nat)
    requires q != p
    ensures q in Load(v, p, f).cache <==> q in v.cache
    ensures q in v.cache ==> Load(v, p, f).cache[q] == v.cache[q]
  {
  }

  /** After a load that displayed non-empty page markup, loading the same page
      again is a hit, issues no fetch and changes nothing. */
  lemma ReloadIsHit(v: LoaderState, p: nat, f: Fetch, g: Fetch)
    requires Cached(v.cache, p) || (f.Response? && f.ok && f.text != "")
    ensures Cached(Load(v, p, f).cache, p)
    ensures Load(Load(v, p, f), p, g) == Load(v, p, f)
  {
  }

  /** Truthiness: an ok response with an empty body is cached yet still a miss,
      so the next load fetches again. */
  lemma EmptyPageRefetched(v: LoaderState, p: nat)
    requires !Cached(v.cache, p)
    ensures var r := Load(v, p, Response(true, ""));
      p in r.cache && !Cached(r.cache, p)
  {
  }

  /** The cache after the preload's completions for pages 0..k-1 are applied in
      turn: every response body is stored, ok or not, overwriting any entry;
      a network error stores nothing. */
  function Preloaded(cache: map<nat, string>, outcomes: seq<Fetch>, k: nat): (r: map<nat, string>)
    requires k <= |outcomes|
    ensures cache.Keys <= r.Keys
    ensures forall q :: q in r && q !in cache ==> q < k
    decreases k
  {
    if k == 0 then cache
    else
      var c := Preloaded(cache, outcomes, k - 1);
      match outcomes[k - 1]
      case Response(_, text) => c[k - 1 := text]
      case NetworkError => c
  }

  /** Entry q after preloading: page q's body if its fetch produced a response
      within the first k pages, the old entry (or its absence) otherwise. */
  lemma {:induction false} PreloadedAt(cache: map<nat, string>, outcomes: seq<Fetch>, k: nat, q: nat)
    requires k <= |outcomes|
    ensures var r := Preloaded(cache, outcomes, k);
      if q < k && outcomes[q].Response? then q in r && r[q] == outcomes[q].text
      else (q in r <==> q in cache) && (q in r ==> r[q] == cache[q])
    decreases k
  {
    if k > 0 {
      PreloadedAt(cache, outcomes, k - 1, q);
    }
  }

  /** A preloaded error page: when page p's file answers with a non-ok status
      but a non-empty body, the preload caches that body, and a later loadPage(p)
      shows it as the page, without fetching and without the placeholder. */
  lemma PreloadedErrorBodyShown(v: LoaderState, outcomes: seq<Fetch>, p: nat, body: string, f: Fetch)
    requires |outcomes| == PageCount && p < PageCount
    requires outcomes[p] == Response(false, body) && body != ""
    ensures var c := Preloaded(v.cache, outcomes, PageCount);
      Cached(c, p) && Load(v.(cache := c), p, f).content == body
  {
    PreloadedAt(v.cache, outcomes, PageCount, p);
  }

  /** The loader as the page holds it. */
  class PageLoader {
    /** pageCache */
    var cache: map<nat, string>
    /** The content container's markup. */
    var content: string
    /** active[k]: button k is painted white-on-black text (active) rather than
        transparent (inactive); button k carries data-page k. */
    const active: array<bool>

    /** Eight buttons, at most one of them active. */
    ghost predicate Valid()
      reads this, active
    {
      active.Length == PageCount && CountTrue(active[..]) <= 1
    }

    function View(): LoaderState
      reads this, active
    {
      LoaderState(cache, content, active[..])
    }

    /** Empty cache, empty container, eight buttons none of them active. */
    constructor ()
      ensures Valid() && fresh(active)
      ensures View() == LoaderState(map[], "", OneHot(-1, PageCount))
    {
      cache := map[];
      content := "";
      active := new bool[PageCount](_ => false);
      new;
      assert active[..] == OneHot(-1, PageCount);
      OneHotCount(-1, PageCount);
    }

    /** highlightButton: paint active exactly the button whose page equals p. */
    method HighlightButton(p: nat)
      requires Valid()
      modifies active
      ensures Valid() && active[..] == OneHot(p, PageCount)
    {
      for k := 0 to active.Length
        invariant forall j :: 0 <= j < k ==> active[j] == (j == p)
      {
        active[k] := k == p;
      }
      assert active[..] == OneHot(p, PageCount);
      OneHotCount(p, PageCount);
    }

    /** loadPage(p), its fetch (if any) completing with f; `fetched` says whether
        a fetch was issued, which happens exactly on a cache miss. */
    method LoadPage(p: nat, f: Fetch) returns (fetched: bool)
      requires Valid()
      modifies this, active
      ensures Valid() && View() == Load(old(View()), p, f)
      ensures fetched == !Cached(old(cache), p)
    {
      if p in cache && cache[p] != "" {
        content := cache[p];
        HighlightButton(p);
        return false;
      }
      fetched := true;
      match f {
        case Response(ok, text) =>
          if ok {
            cache := cache[p := text];
            content := text;
            HighlightButton(p);
          } else {
            content := ErrorMessage(p);
          }
        case NetworkError =>
          content := ErrorMessage(p);
      }
    }

    /** preloadPages, outcomes[i] being how the fetch of page i completes. The
        fetches complete in any order, but each writes its own entry. */
    method PreloadPages(outcomes: seq<Fetch>)
      requires Valid() && |outcomes| == PageCount
      modifies this
      ensures Valid() && cache == Preloaded(old(cache), outcomes, PageCount)
      ensures content == old(content) && unchanged(active)
    {
      for i := 0 to PageCount
        invariant cache == Preloaded(old(cache), outcomes, i)
        invariant content == old(content)
      {
        match outcomes[i] {
          case Response(_, text) => cache := cache[i := text];
          case NetworkError =>
        }
      }
    }
  }
}
