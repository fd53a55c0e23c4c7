/** The scroll side of the carousel: which page number a slot index reports,
    what the pager does once the scroll view rests on a whole page, and where
    the two programmatic scroll calls go. Offsets are counted in slots, which
    holds while `pageWidth` keeps its default, the window width: the source
    counts in window widths. A request to the native scroll view is returned
    as a value instead of being issued. */
module Scrolling {
  import opened Padding

  /** A `scrollTo` request, with its offset expressed as a slot index. */
  datatype ScrollRequest = ScrollRequest(index: int, animated: bool)

  /** What `_onScroll` does with one scroll event. */
  datatype Action =
    | Teleport(request: ScrollRequest)  // jump, without animation, to another slot
    | ReportPage(pageNumber: int)       // call `onPageChange` with this number
    | Idle                              // the view is between two pages

  /** `_getPageNumberByIndex` for a data source of `len` slots. */
  function PageNumberByIndex(len: int, index: int): (r: int)
    ensures index != 0 && index != len - 1 ==> r == index
  {
    if index == 0 then len - 1
    else if index == len - 1 then 1
    else index
  }

  /** The settle rule of `_onScroll`. The page index there is the offset in
      window widths (slots while `pageWidth` keeps its default) rounded up to
      hundredths, so it is taken here as a whole number of hundredths `h`; it
      is a whole page exactly when `h % 100 == 0` (JavaScript's `% 1 === 0`
      test, which also holds for `-0`). */
  function Settle(len: int, h: int): (a: Action)
    ensures h % 100 != 0 <==> a == Idle
    ensures a.Teleport? ==> !a.request.animated
  {
    if h % 100 != 0 then Idle
    else
      var pageIndex := h / 100;
      if pageIndex == 0 then Teleport(ScrollRequest(len - 2, false))
      else if pageIndex == len - 1 then Teleport(ScrollRequest(1, false))
      else ReportPage(PageNumberByIndex(len, pageIndex))
  }

  /** `scrollToPage`: an animated scroll past the `thresholdPages` front slots. */
  function ScrollToPage(thresholdPages: nat, pageNumber: int): (r: ScrollRequest)
    ensures r.animated && r.index - thresholdPages == pageNumber
  {
    ScrollRequest(pageNumber + thresholdPages, true)
  }

  /** `scrollToIndex`: an animated scroll to an absolute slot. */
  function ScrollToIndex(pageIndex: int): (r: ScrollRequest)
    ensures r.animated && r.index == pageIndex
  {
    ScrollRequest(pageIndex, true)
  }

  // With the default of one threshold page the rule is seamless.

  /** With one threshold page, every teleport lands inside the strip on a slot
      that shows the same page as the slot it leaves. */
  lemma {:induction false} TeleportIsSeamless<T>(data: seq<Page<T>>, h: int)
    requires |data| > 0
    requires Settle(|Prepared(data, 1)|, h).Teleport?
    ensures var ds, p, j := Prepared(data, 1), h / 100, Settle(|Prepared(data, 1)|, h).request.index;
      0 <= p < |ds| && 0 <= j < |ds| && ds[j].pageNumber == ds[p].pageNumber
  {
    var n := |data|;
    if h / 100 == 0 {
      NegMod(0, n);
      ModUnique(n - 1, n, 0, n - 1);
    } else {
      ModUnique(n, n, 1, 0);
      ModUnique(0, n, 0, 0);
    }
  }

  /** With one threshold page, a teleport lands on a real page, and settling
      there reports that page rather than teleporting again. */
  lemma {:induction false} TeleportLandsOnRealPage<T>(data: seq<Page<T>>, h: int)
    requires |data| > 0
    requires Settle(|Prepared(data, 1)|, h).Teleport?
    ensures var ds, j := Prepared(data, 1), Settle(|Prepared(data, 1)|, h).request.index;
      1 <= j <= |data| && 0 <= j < |ds| &&
      ds[j].pageNumber == Some(j) && Settle(|ds|, 100 * j) == ReportPage(j)
  {
    var j := Settle(|Prepared(data, 1)|, h).request.index;
    ModUnique(j - 1, |data|, 0, j - 1);
    ModUnique(100 * j, 100, j, 0);
  }

  /** With one threshold page, whenever the rule reports a page for a slot of
      the strip, it is the page number that slot carries. */
  lemma {:induction false} ReportedPageIsSlotPage<T>(data: seq<Page<T>>, h: int)
    requires |data| > 0
    requires 0 <= h / 100 < |Prepared(data, 1)|
    requires Settle(|Prepared(data, 1)|, h).ReportPage?
    ensures Prepared(data, 1)[h / 100].pageNumber == Some(Settle(|Prepared(data, 1)|, h).pageNumber)
  {
    var p := h / 100;
    ModUnique(p - 1, |data|, 0, p - 1);
  }

  /** `scrollToPage(q)` lands on the slot showing page `q mod n + 1`: the
      argument counts pages from zero, and any `q` from `-t` up to the end of
      the strip is in range. */
  lemma {:induction false} ScrollToPageShowsPage<T>(data: seq<Page<T>>, t: nat, q: int)
    requires |data| > 0 && -(t as int) <= q < |data| + t
    ensures var ds, j := Prepared(data, t), ScrollToPage(t, q).index;
      0 <= j < |ds| && ds[j].pageNumber == Some(q % |data| + 1)
  {
  }

  /** With one threshold page, the number `onPageChange` reports for real
      page `p`, passed back to `scrollToPage`, lands on the next page: the
      report is 1-based, the argument of `scrollToPage` 0-based. */
  lemma {:induction false} ReportedPageScrollsOneFurther<T>(data: seq<Page<T>>, p: int)
    requires 1 <= p <= |data|
    ensures Settle(|Prepared(data, 1)|, 100 * p) == ReportPage(p)
    ensures var ds, j := Prepared(data, 1), ScrollToPage(1, p).index;
      0 <= j < |ds| && ds[j].pageNumber == Some(if p == |data| then 1 else p + 1)
  {
    var n := |data|;
    ModUnique(100 * p, 100, p, 0);
    if p == n {
      ModUnique(n, n, 1, 0);
    } else {
      ModUnique(p, n, 0, p);
    }
  }

  /** `scrollToIndex(i)` lands on the slot tagged `_pageIndex == i`. */
  lemma {:induction false} ScrollToIndexShowsIndex<T>(data: seq<Page<T>>, t: nat, i: nat)
    requires |data| > 0 && i < |data| + 2 * t
    ensures var j := ScrollToIndex(i).index;
      0 <= j < |Prepared(data, t)| && Prepared(data, t)[j].pageIndex == Some(i)
  {
  }

  // Two places where the rule as written disagrees with the strip it scrolls.

  /** Three pages with nothing else in them, for the two counterexamples. */
  function ThreePages(): (data: seq<Page<int>>)
    ensures |data| == 3
  {
    [Page(0, None, None), Page(1, None, None), Page(2, None, None)]
  }

  /** As written, `_getPageNumberByIndex(0)` is `len - 1`: with three pages
      and one threshold page that is 4, a page that does not exist, while
      slot 0 carries page 3. */
  lemma PageNumberByIndexMisnumbersFirstSlot()
    ensures PageNumberByIndex(|Prepared(ThreePages(), 1)|, 0) == 4
    ensures Prepared(ThreePages(), 1)[0].pageNumber == Some(3)
  {
  }

  /** The page number slot `index` carries, for `n` pages and `t` threshold
      pages on each side. */
  function PageNumberAt(n: nat, t: nat, index: int): (r: int)
    requires n > 0
    ensures 1 <= r <= n
    ensures t <= index < t + n ==> r == index - t + 1
  {
    var k := Source(n, t, index);
    assert t <= index < t + n ==> k == index - t by {
      if t <= index < t + n {
        ModUnique(index - t, n, 0, index - t);
      }
    }
    k + 1
  }

  /** The corrected lookup names the page every slot of the strip carries. */
  lemma {:induction false} PageNumberAtIsSlotPage<T>(data: seq<Page<T>>, t: nat, index: nat)
    requires |data| > 0 && index < |data| + 2 * t
    ensures Prepared(data, t)[index].pageNumber == Some(PageNumberAt(|data|, t, index))
  {
  }

  /** With one threshold page the corrected lookup agrees with
      `_getPageNumberByIndex` on every slot but the first. */
  lemma {:induction false} PageNumberAtAgreesAfterFirstSlot(n: nat, index: int)
    requires n > 0 && 1 <= index < n + 2
    ensures PageNumberAt(n, 1, index) == PageNumberByIndex(n + 2, index)
  {
    if index == n + 1 {
      ModUnique(n, n, 1, 0);
    } else {
      ModUnique(index - 1, n, 0, index - 1);
    }
  }

  /** As written, with two threshold pages and three pages (seven slots),
      settling on slot 0 (page 2) teleports to slot 5 (page 1), and settling
      on slot 2, where the pager starts and which shows page 1, reports
      page 2. */
  lemma SettleBreaksWithTwoThresholdPages()
    ensures var ds := Prepared(ThreePages(), 2);
      |ds| == 7 &&
      Settle(|ds|, 0) == Teleport(ScrollRequest(5, false)) &&
      ds[0].pageNumber == Some(2) && ds[5].pageNumber == Some(1) &&
      Settle(|ds|, 200) == ReportPage(2) && ds[2].pageNumber == Some(1)
  {
  }

  /** The settle rule for any number `t` of threshold pages: slot 0 shows the
      same page as slot `n`, and the last slot the same page as slot
      `2t - 1`; every other whole slot reports the page it carries. Without
      threshold pages there is nothing to teleport to. */
  function SettleLooped(n: nat, t: nat, h: int): (a: Action)
    requires n > 0
    ensures h % 100 != 0 <==> a == Idle
    ensures a.Teleport? ==> !a.request.animated
  {
    if h % 100 != 0 then Idle
    else
      var pageIndex := h / 100;
      if t > 0 && pageIndex == 0 then Teleport(ScrollRequest(n, false))
      else if t > 0 && pageIndex == n + 2 * t - 1 then Teleport(ScrollRequest(2 * t - 1, false))
      else ReportPage(PageNumberAt(n, t, pageIndex))
  }

  /** For every number of threshold pages, a teleport lands inside the strip
      on a slot showing the same page, and settling there reports that page. */
  lemma {:induction false} SettleLoopedIsSeamless<T>(data: seq<Page<T>>, t: nat, h: int)
    requires |data| > 0
    requires SettleLooped(|data|, t, h).Teleport?
    ensures var ds, p, j := Prepared(data, t), h / 100, SettleLooped(|data|, t, h).request.index;
      0 <= p < |ds| && 0 <= j < |ds| && ds[j].pageNumber == ds[p].pageNumber &&
      SettleLooped(|data|, t, 100 * j) == ReportPage(ds[j].pageNumber.value)
  {
    var n := |data|;
    var p := h / 100;
    var j := SettleLooped(n, t, h).request.index;
    if p == 0 {
      assert j == n;
      ShiftMod(-(t as int), n);
      assert Source(n, t, j) == Source(n, t, p);
    } else {
      assert p == n + 2 * t - 1 && j == 2 * t - 1;
      ShiftMod(t - 1, n);
      assert Source(n, t, j) == Source(n, t, p);
    }
    PageNumberAtIsSlotPage(data, t, j);
    PageNumberAtIsSlotPage(data, t, p);
    SettleLoopedOnInnerSlot(n, t, j);
  }

  /** Settling on a slot strictly inside the strip reports its page. */
  lemma SettleLoopedOnInnerSlot(n: nat, t: nat, j: int)
    requires n > 0 && 0 < j < n + 2 * t - 1
    ensures SettleLooped(n, t, 100 * j) == ReportPage(PageNumberAt(n, t, j))
  {
    ModUnique(100 * j, 100, j, 0);
  }

  /** Whenever the corrected rule reports a page for a slot of the strip, it
      is the page that slot carries. */
  lemma {:induction false} SettleLoopedReportsSlotPage<T>(data: seq<Page<T>>, t: nat, h: int)
    requires |data| > 0
    requires 0 <= h / 100 < |data| + 2 * t
    requires SettleLooped(|data|, t, h).ReportPage?
    ensures Prepared(data, t)[h / 100].pageNumber == Some(SettleLooped(|data|, t, h).pageNumber)
  {
    PageNumberAtIsSlotPage(data, t, h / 100);
  }

  /** With the default of one threshold page the corrected rule is the rule
      as written, on every slot of the strip. */
  lemma {:induction false} SettleLoopedAgreesWithOneThresholdPage(n: nat, h: int)
    requires n > 0 && 0 <= h / 100 < n + 2
    ensures SettleLooped(n, 1, h) == Settle(n + 2, h)
  {
    var p := h / 100;
    if h % 100 == 0 && 1 <= p < n + 1 {
      PageNumberAtAgreesAfterFirstSlot(n, p);
    }
  }
}
