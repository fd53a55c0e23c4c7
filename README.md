# Infinite carousel index arithmetic

A model of the index arithmetic behind the looping `ViewPager` carousel of
react-native-viewpager-carousel (`src/ViewPager.js`). The pager shows the
caller's `n` pages in a horizontal scroll view. To make the list look
endless, it pads the list with `thresholdPages` (`t`) wrap-around copies at
each end. With the default `t = 1`, when the view comes to rest on one of
the two outermost slots, it jumps without animation to a slot that shows the
same page; for other `t` it does so only when `n` divides `2(t - 1)`, so
not for three pages with `t = 2` (the second row under "## Findings").

- `padding.dfy` (module `Padding`) covers the data side. `Page` is one page
  object: the caller's own fields plus the `_pageNumber` and `_pageIndex`
  tags the pager adds. `SetPageNumber` and `SetPageIndex` model the two
  tagging maps. `PrepareData` models `_prepareData` as a method with the
  source's accumulate-then-slice loop. It is proved equal to `Prepared`,
  which states the padded strip slot by slot: slot `i` shows original page
  `(i - t) mod n`, numbered one past that position, and indexed `i`. The
  lemmas after it describe each region of the strip, the wrap-around from
  each slot to the next, and the fields every slot keeps.
- `scrolling.dfy` (module `Scrolling`) covers the scroll side.
  `PageNumberByIndex` models `_getPageNumberByIndex`. `Settle` is the
  whole-page decision inside `_onScroll`: it returns an `Action` that either
  teleports to a slot, reports a page number, or does nothing.
  `ScrollToPage` and `ScrollToIndex` return the slot that `scrollToPage`
  and `scrollToIndex` scroll to. `scrollToPage` counts pages from zero.
  With the default `t = 1`, `onPageChange` reports 1-based page numbers, so
  a reported number passed back to `scrollToPage` moves one page further;
  for `t >= 2` it reports the raw slot index, so page 1, at slot `t`, is
  reported as `t`; with `t = 0` slots 0 and `n - 1` teleport and the slots
  between report their 0-based position (the second row under
  "## Findings"). The lemmas prove
  that with the default `t = 1` the loop is seamless. The two findings below come with their
  corrected counterparts, `PageNumberAt` and `SettleLooped`.

Scroll offsets are counted in slots, so the viewport width never appears.
This holds while `pageWidth` keeps its default, the window width (line 17):
the source measures offsets and scroll targets in window widths, and only
then is one window width one slot.
Line 107 rounds the page index up to hundredths, so `Settle` takes the index
as a whole number of hundredths `h`. The index is a whole page exactly when
`h % 100 == 0`. A `scrollTo` call is returned as a `ScrollRequest` value
(target slot, animated or not) instead of being issued. JavaScript's
`Object.assign({}, …)` copies each page's own enumerable properties before
tagging it, so `Page.fields` stands for those properties only: a prototype
or a non-enumerable property of the caller's object is not carried over.
Dafny sequences are values, so the caller's list is unchanged by
construction.

`_prepareData` has one input that never terminates. With an empty list and
`t > 0`, the loop bound `Math.ceil(t / 0)` is `Infinity`. `PrepareData` and
`Prepared` therefore require `n > 0 || t == 0`. With an empty list and
`t == 0`, `Math.ceil(0 / 0)` is `NaN`, the loop does not run, and the result
is empty. The model returns `[]` in that case too. The component's default
props reach the non-terminating case: `data` defaults to `[]` and
`thresholdPages` to 1 (lines 16 and 25), so a `ViewPager` given no data
never leaves its constructor (line 38).

## Model

| member | source | states |
|---|---|---|
| `Padding.CeilDiv` | src/ViewPager.js:75 | `multiplicator` is the least `m` with `m * n >= t`, so `m` copies of the pages cover the `t` slots each slice needs |
| `Padding.SetPageNumber` | src/ViewPager.js:57-63 | same length; page `k` gets `_pageNumber = k + 1`; its other fields and its `_pageIndex` are unchanged |
| `Padding.SetPageIndex` | src/ViewPager.js:65-71 | same length; slot `i` gets `_pageIndex = i`; its other fields and its `_pageNumber` are unchanged |
| `Padding.Repeat` | src/ViewPager.js:79-85 | after `k` rounds an accumulator holds `k` copies of its block, so its length is `k * n` |
| `Padding.RepeatAt` | src/ViewPager.js:82-85 | position `j` of an accumulator is position `j mod n` of the block it repeats |
| `Padding.PrepareData` | src/ViewPager.js:73-95 | for non-empty data the result has `n + 2t` slots and is exactly the cyclic strip `Prepared`; the loop keeps the front accumulator equal to `i` reversed copies of the numbered pages and the end one to `i` forward copies |
| `Padding.AssembledIsPrepared` | src/ViewPager.js:87-92 | once each accumulator holds at least `t` pages in loop order, reversing the front slice, joining the three parts and indexing them gives the cyclic strip |
| `Padding.MiddleBlockIsData` | src/ViewPager.js:91 | slots `t .. t+n-1` hold the caller's pages in order, page `k` numbered `k + 1` and indexed `t + k` |
| `Padding.FrontPaddingCountsBackFromLast` | src/ViewPager.js:82-87 | front slot `j < t` holds page `n - 1 - ((t - 1 - j) mod n)`: the last `t` pages taken cyclically, in forward order |
| `Padding.EndPaddingCountsFromFirst` | src/ViewPager.js:84-89 | end slot `t + n + j` for `j < t` holds page `j mod n`: the first `t` pages taken cyclically |
| `Padding.ConsecutiveSlotsShowNextPage` | src/ViewPager.js:82-92 | every slot's successor shows the next page number, wrapping from `n` to 1, so the whole strip is seamless |
| `Padding.SlotsKeepCallerFields` | src/ViewPager.js:91-92 | every slot is tagged with its own index, carries a page number in `1..n`, and keeps that caller page's own fields |
| `Scrolling.PageNumberByIndex` | src/ViewPager.js:97-101 | every index other than `0` and `len - 1` is its own page number |
| `Scrolling.Settle` | src/ViewPager.js:103-131 | nothing happens exactly when the view is between two pages; every teleport is unanimated |
| `Scrolling.ScrollToPage` | src/ViewPager.js:140-145 | an animated scroll to the slot `t` places past the given number |
| `Scrolling.ScrollToIndex` | src/ViewPager.js:147-152 | an animated scroll to the given slot |
| `Scrolling.TeleportIsSeamless` | src/ViewPager.js:109-123 | with `t = 1`, every teleport leaves a slot of the strip and lands on a slot of the strip showing the same page |
| `Scrolling.TeleportLandsOnRealPage` | src/ViewPager.js:109-129 | with `t = 1`, a teleport lands on a real page slot `j` showing page `j`, and settling there reports `j` instead of teleporting again |
| `Scrolling.ReportedPageIsSlotPage` | src/ViewPager.js:124-128 | with `t = 1`, a page reported for any slot of the strip is that slot's `_pageNumber` |
| `Scrolling.ScrollToPageShowsPage` | src/ViewPager.js:140-145 | `scrollToPage(q)` lands inside the strip on the slot showing page `q mod n + 1`, so its argument counts pages from zero |
| `Scrolling.ReportedPageScrollsOneFurther` | src/ViewPager.js:124-145 | with `t = 1`, passing the page number `onPageChange` reports for a real page `p` back to `scrollToPage` lands on the slot showing page `p + 1` (page 1 after the last): the two use different numberings |
| `Scrolling.ScrollToIndexShowsIndex` | src/ViewPager.js:147-152 | `scrollToIndex(i)` lands on the slot tagged `_pageIndex == i` |
| `Scrolling.PageNumberByIndexMisnumbersFirstSlot` | src/ViewPager.js:98 | with three pages and `t = 1`, index 0 is looked up as page 4, while slot 0 carries page 3 |
| `Scrolling.PageNumberAt` | src/ViewPager.js:97-101 | the corrected lookup is always a page number in `1..n`, and on the real pages it is the position past the padding plus one |
| `Scrolling.PageNumberAtIsSlotPage` | src/ViewPager.js:97-101 | the corrected lookup is the `_pageNumber` of every slot of the strip, for any `t` |
| `Scrolling.PageNumberAtAgreesAfterFirstSlot` | src/ViewPager.js:99-100 | with `t = 1` the corrected lookup equals `_getPageNumberByIndex` on every slot but slot 0 |
| `Scrolling.SettleBreaksWithTwoThresholdPages` | src/ViewPager.js:109-126 | with three pages and `t = 2`, slot 0 (page 2) teleports to slot 5 (page 1), and the start slot 2 (page 1) is reported as page 2 |
| `Scrolling.SettleLooped` | src/ViewPager.js:109-129 | the corrected rule is idle exactly between pages and never animates a teleport |
| `Scrolling.SettleLoopedIsSeamless` | src/ViewPager.js:110-123 | for every `t`, a teleport lands inside the strip on a slot showing the same page, and settling there reports that page |
| `Scrolling.SettleLoopedReportsSlotPage` | src/ViewPager.js:124-128 | for every `t`, a page reported for a slot of the strip is that slot's `_pageNumber` |
| `Scrolling.SettleLoopedAgreesWithOneThresholdPage` | src/ViewPager.js:109-129 | with `t = 1` the corrected rule equals the rule as written on every slot of the strip |

## Left out

- Rendering (`render`, `_renderRow`, `StyleSheet`, `propTypes`): these only build UI-toolkit output.
- The `react-native-mirror` wrapping of edge rows and its connection ids (lines 171-203): the mirroring component is external and its behaviour is not visible.
- Pixel arithmetic: `_pageWithDelta`, the mount offset in `componentDidMount`, the pan formula in `scroll`, and the floating-point rounding of the offset into a page index. Offsets are taken as whole slots or hundredths of a slot; floating-point error is not modelled.
- `pageWidth` is taken to be the window width, its default. With another width, the index `_onScroll` computes and the teleport and scroll targets are in window widths, not slots, and the lemmas that tie a scroll index to a slot of `Prepared` (`TeleportIsSeamless`, `TeleportLandsOnRealPage`, `ReportedPageIsSlotPage`, `ScrollToPageShowsPage`, `ReportedPageScrollsOneFurther`, `ScrollToIndexShowsIndex` and the `SettleLooped` lemmas) say nothing about them.
- `setTimeout`, `setState` and `componentWillReceiveProps`: the last one reruns `_prepareData` on new data, which `PrepareData` covers, but with the previous props' `thresholdPages`, since `this.props` is not yet updated there; a new `thresholdPages` arriving with new data builds the strip with the old `t`, while `scrollToPage` later uses the new one. The model takes one `t` throughout.
- The user callbacks `onScroll`, `onPageChange` and `renderRow`: `onScroll(offsetX)` is called on every event and is not modelled; `onPageChange` is the `ReportPage` action.
- `this.pageIndex`: `_onScroll` stores the rounded index in a field but reads it back only within the same call, so `Settle` takes it as an argument.
- `data || []`: a missing `data` prop is taken as the empty list; the model's input is always a list.
- `thresholdPages` is a `nat`: a negative or fractional value, which JavaScript would accept, is not modelled.
- `Scrolling.ReportedPageIsSlotPage`: states nothing about an index outside the strip (an overscroll bounce), where the rule as written reports the raw index.

## Findings

| source | as written | input that shows it | evidently intended | confidence | as-written member | corrected member |
|---|---|---|---|---|---|---|
| src/ViewPager.js:98 | `_getPageNumberByIndex(0)` returns `len - 1`, which is `n + 1` with one threshold page: no such page exists | three pages, `t = 1`: index 0 gives 4, but slot 0 carries `_pageNumber` 3 | the page slot 0 shows, `len - 2` with one threshold page | low, not executed: `_onScroll` teleports on index 0 and never asks for its number | `Scrolling.PageNumberByIndexMisnumbersFirstSlot` | `Scrolling.PageNumberAt` |
| src/ViewPager.js:110-126 | the teleport targets `len - 2` and `1`, and the page number equal to the index, assume `thresholdPages == 1` | three pages, `t = 2`: settling on slot 0 (page 2) jumps to slot 5 (page 1); the start slot 2 (page 1) is reported as page 2 | jump from slot 0 to slot `n` and from the last slot to slot `2t - 1`; report `(index - t) mod n + 1` | medium, not executed: `thresholdPages` is a public prop and `_prepareData` handles `t > n` | `Scrolling.SettleBreaksWithTwoThresholdPages` | `Scrolling.SettleLooped` |
