/** The data side of the infinite-loop carousel: the user's finite list of
    pages is tagged with page numbers, padded at both ends with
    `thresholdPages` wrap-around copies, and every slot of the padded strip is
    tagged with its absolute index. */
module Padding {

  datatype Option<T> = None | Some(value: T)

  /** One page object. `fields` stands for the object's own enumerable
      properties, the ones `Object.assign({}, …)` copies; the two tags are the
      properties the pager adds, and an incoming page may already carry either. */
  datatype Page<T> = Page(fields: T, pageNumber: Option<int>, pageIndex: Option<int>)

  /** `Math.ceil(t / n)` for a positive divisor: the fewest copies of `n`
      pages that cover `t` slots. */
  function CeilDiv(t: nat, n: nat): (m: nat)
    requires n > 0
    ensures m * n >= t
    ensures m == 0 || (m - 1) * n < t
  {
    var m := (t + n - 1) / n;
    DivBounds(t + n - 1, n);
    m
  }

  /** `_setPageNumber`: a copy of every page with its 1-based position as page number. */
  function SetPageNumber<T>(data: seq<Page<T>>): (r: seq<Page<T>>)
    ensures |r| == |data|
    ensures forall k :: 0 <= k < |r| ==>
      r[k].pageNumber == Some(k + 1) &&
      r[k].fields == data[k].fields && r[k].pageIndex == data[k].pageIndex
  {
    seq(|data|, k requires 0 <= k < |data| => data[k].(pageNumber := Some(k + 1)))
  }

  /** `_setPageIndex`: a copy of every page with its 0-based position as page index. */
  function SetPageIndex<T>(data: seq<Page<T>>): (r: seq<Page<T>>)
    ensures |r| == |data|
    ensures forall i :: 0 <= i < |r| ==>
      r[i].pageIndex == Some(i) &&
      r[i].fields == data[i].fields && r[i].pageNumber == data[i].pageNumber
  {
    seq(|data|, i requires 0 <= i < |data| => data[i].(pageIndex := Some(i)))
  }

  /** `[...s].reverse()` */
  function Reversed<T>(s: seq<T>): (r: seq<T>)
    ensures |r| == |s|
    ensures forall i :: 0 <= i < |s| ==> r[i] == s[|s| - 1 - i]
  {
    seq(|s|, i requires 0 <= i < |s| => s[|s| - 1 - i])
  }

  /** `s.slice(0, k)`: JavaScript returns fewer than `k` elements when `s` is short. */
  function Take<T>(s: seq<T>, k: nat): (r: seq<T>)
    ensures |r| == if k <= |s| then k else |s|
    ensures r <= s
  {
    if k <= |s| then s[..k] else s
  }

  /** Which original page slot `i` of the padded strip shows: slot `t` is the
      first real page and the strip wraps around every `n` slots. */
  function Source(n: nat, t: nat, i: int): (k: nat)
    requires n > 0
    ensures k < n
  {
    (i - t) % n
  }

  /** Slot `i` of the padded strip: original page `Source(n, t, i)`, numbered
      one past its position in the caller's list and indexed `i`. */
  function SlotAt<T>(data: seq<Page<T>>, t: nat, i: int): Page<T>
    requires |data| > 0
  {
    var k := Source(|data|, t, i);
    data[k].(pageNumber := Some(k + 1), pageIndex := Some(i))
  }

  /** The padded strip `_prepareData` is meant to build, stated slot by slot:
      it is cyclic, with `t` extra slots on each side of the `n` real pages. */
  function Prepared<T>(data: seq<Page<T>>, t: nat): (r: seq<Page<T>>)
    requires |data| > 0 || t == 0
  {
    if |data| == 0 then []
    else seq(|data| + 2 * t, i requires 0 <= i < |data| + 2 * t => SlotAt(data, t, i))
  }

  /** What an accumulator of `_prepareData` holds after `k` rounds of the
      loop: `k` copies of `s` one after the other. */
  function Repeat<T>(s: seq<T>, k: nat): (r: seq<T>)
    ensures |r| == k * |s|
  {
    if k == 0 then [] else Repeat(s, k - 1) + s
  }

  /** Position `j` of the repeated block is position `j mod |s|` of `s`. */
  lemma {:induction false} RepeatAt<T>(s: seq<T>, k: nat, j: nat)
    requires j < |Repeat(s, k)|
    ensures Repeat(s, k)[j] == s[j % |s|]
  {
    var before := Repeat(s, k - 1);
    if j < |before| {
      RepeatAt(s, k - 1, j);
    } else {
      ModUnique(j, |s|, k - 1, j - |before|);
    }
  }

  /** `_prepareData`. The loop appends a reversed and a forward copy of the
      numbered pages `Math.ceil(t / n)` times; the two slices of `t` then
      always find enough elements, and the strip is cyclic. With no pages
      `Math.ceil(0 / 0)` is `NaN` and the loop does not run; with no pages and
      `t > 0` it is `Infinity` and the loop never ends, hence the requires. */
  method PrepareData<T>(data: seq<Page<T>>, thresholdPages: nat) returns (prepared: seq<Page<T>>)
    requires |data| > 0 || thresholdPages == 0
    ensures |prepared| == if |data| == 0 then 0 else |data| + 2 * thresholdPages
    ensures prepared == Prepared(data, thresholdPages)
  {
    var n, t := |data|, thresholdPages;
    var multiplicator := if n == 0 then 0 else CeilDiv(t, n);
    var initialized := SetPageNumber(data);
    var front: seq<Page<T>> := [];
    var end: seq<Page<T>> := [];
    for i := 0 to multiplicator
      invariant front == Repeat(Reversed(initialized), i)
      invariant end == Repeat(initialized, i)
    {
      front := front + Reversed(initialized);
      end := end + initialized;
    }
    var thresholdFront := Reversed(Take(front, t));
    var thresholdEnd := Take(end, t);
    assert |thresholdFront| == t && |thresholdEnd| == t;
    prepared := SetPageIndex(thresholdFront + initialized + thresholdEnd);
    if n > 0 {
      AssembledIsPrepared(data, t, multiplicator);
    }
  }

  /** The final step of `_prepareData`: after `m` rounds with `m * n >= t`,
      reversing the front slice and joining the three parts gives the cyclic
      strip. */
  lemma AssembledIsPrepared<T>(data: seq<Page<T>>, t: nat, m: nat)
    requires |data| > 0 && m * |data| >= t
    ensures var initialized := SetPageNumber(data);
      SetPageIndex(Reversed(Take(Repeat(Reversed(initialized), m), t)) + initialized
                   + Take(Repeat(initialized, m), t)) == Prepared(data, t)
  {
    var n, initialized := |data|, SetPageNumber(data);
    var front, end := Repeat(Reversed(initialized), m), Repeat(initialized, m);
    var joined := Reversed(Take(front, t)) + initialized + Take(end, t);
    forall i | 0 <= i < n + 2 * t
      ensures joined[i] == initialized[Source(n, t, i)]
    {
      if i < t {
        FrontSlot(data, t, m, i);
      } else if i < t + n {
        MiddleSlot(data, t, Reversed(Take(front, t)), Take(end, t), i - t);
      } else {
        EndSlot(data, t, m, i - t - n);
      }
    }
    IndexedIsPrepared(data, t, joined);
  }

  lemma IndexedIsPrepared<T>(data: seq<Page<T>>, t: nat, joined: seq<Page<T>>)
    requires |data| > 0 && |joined| == |data| + 2 * t
    requires forall i :: 0 <= i < |joined| ==> joined[i] == SetPageNumber(data)[Source(|data|, t, i)]
    ensures SetPageIndex(joined) == Prepared(data, t)
  {
    var prepared := SetPageIndex(joined);
    forall i | 0 <= i < |joined|
      ensures prepared[i] == Prepared(data, t)[i]
    {
    }
  }

  lemma FrontSlot<T>(data: seq<Page<T>>, t: nat, m: nat, i: nat)
    requires |data| > 0 && m * |data| >= t && i < t
    ensures Reversed(Take(Repeat(Reversed(SetPageNumber(data)), m), t))[i]
      == SetPageNumber(data)[Source(|data|, t, i)]
  {
    var front := Repeat(Reversed(SetPageNumber(data)), m);
    assert Reversed(Take(front, t))[i] == front[t - 1 - i];
    RepeatAt(Reversed(SetPageNumber(data)), m, t - 1 - i);
    NegMod(t - 1 - i, |data|);
  }

  lemma MiddleSlot<T>(data: seq<Page<T>>, t: nat, before: seq<Page<T>>, after: seq<Page<T>>, k: nat)
    requires k < |data| && |before| == t
    ensures (before + SetPageNumber(data) + after)[t + k] == SetPageNumber(data)[Source(|data|, t, t + k)]
  {
    ModUnique(k, |data|, 0, k);
  }

  lemma EndSlot<T>(data: seq<Page<T>>, t: nat, m: nat, j: nat)
    requires |data| > 0 && m * |data| >= t && j < t
    ensures Take(Repeat(SetPageNumber(data), m), t)[j]
      == SetPageNumber(data)[Source(|data|, t, t + |data| + j)]
  {
    RepeatAt(SetPageNumber(data), m, j);
    ShiftMod(j, |data|);
  }

  // Arithmetic on Dafny's Euclidean `/` and `%`, which agree with the
  // non-negative modulus used above.

  lemma DivBounds(x: nat, n: nat)
    requires n > 0
    ensures (x / n) * n <= x < (x / n) * n + n
  {
  }

  lemma ModUnique(x: int, n: int, q: int, r: int)
    requires 0 <= r < n && x == q * n + r
    ensures x % n == r && x / n == q
  {
    var d := x / n - q;
    MulSign(d, n);
    assert d * n == r - x % n;
  }

  lemma MulSign(d: int, n: int)
    requires n > 0
    ensures d > 0 ==> d * n >= n
    ensures d < 0 ==> d * n <= -n
  {
  }

  /** Counting back from the last page: `-(a + 1)` wraps to `n - 1 - a % n`. */
  lemma NegMod(a: nat, n: nat)
    requires n > 0
    ensures (-(a + 1)) % n == n - 1 - a % n
  {
    ModUnique(-(a + 1), n, -(a / n) - 1, n - 1 - a % n);
  }

  /** A full turn of `n` slots comes back to the same page. */
  lemma ShiftMod(j: int, n: nat)
    requires n > 0
    ensures (n + j) % n == j % n
  {
    ModUnique(n + j, n, j / n + 1, j % n);
  }

  /** One slot further on is one page further on, wrapping after the last. */
  lemma SuccMod(x: int, n: nat)
    requires n > 0
    ensures (x + 1) % n == if x % n == n - 1 then 0 else x % n + 1
  {
    if x % n == n - 1 {
      ModUnique(x + 1, n, x / n + 1, 0);
    } else {
      ModUnique(x + 1, n, x / n, x % n + 1);
    }
  }

  // What the padded strip holds, region by region.

  /** The real pages sit in order between the two paddings, numbered from 1. */
  lemma {:induction false} MiddleBlockIsData<T>(data: seq<Page<T>>, t: nat, k: nat)
    requires k < |data|
    ensures |Prepared(data, t)| == |data| + 2 * t
    ensures Prepared(data, t)[t + k] ==
      data[k].(pageNumber := Some(k + 1), pageIndex := Some(t + k))
  {
    ModUnique(k, |data|, 0, k);
  }

  /** Front slot `j < t` holds the page found `t - j` places back from the
      first page, going round from the last one: the last `t` pages taken
      cyclically, in forward order. */
  lemma {:induction false} FrontPaddingCountsBackFromLast<T>(data: seq<Page<T>>, t: nat, j: nat)
    requires |data| > 0 && j < t
    ensures |Prepared(data, t)| == |data| + 2 * t
    ensures Prepared(data, t)[j] ==
      var k := |data| - 1 - (t - 1 - j) % |data|;
      data[k].(pageNumber := Some(k + 1), pageIndex := Some(j))
  {
    var n := |data|;
    NegMod(t - 1 - j, n);
    assert Source(n, t, j) == n - 1 - (t - 1 - j) % n;
    assert Prepared(data, t)[j] == SlotAt(data, t, j);
  }

  /** End slot `t + n + j` for `j < t` holds page `j mod n`: the first `t`
      pages taken cyclically. */
  lemma {:induction false} EndPaddingCountsFromFirst<T>(data: seq<Page<T>>, t: nat, j: nat)
    requires |data| > 0 && j < t
    ensures |Prepared(data, t)| == |data| + 2 * t
    ensures Prepared(data, t)[t + |data| + j] ==
      var k := j % |data|;
      data[k].(pageNumber := Some(k + 1), pageIndex := Some(t + |data| + j))
  {
    ShiftMod(j, |data|);
  }

  /** The strip is seamless everywhere: the slot after any slot shows the next
      page, and the page after the last is the first. */
  lemma {:induction false} ConsecutiveSlotsShowNextPage<T>(data: seq<Page<T>>, t: nat, i: nat)
    requires |data| > 0 && i + 1 < |data| + 2 * t
    ensures |Prepared(data, t)| == |data| + 2 * t
    ensures Prepared(data, t)[i].pageNumber.Some? && Prepared(data, t)[i + 1].pageNumber.Some?
    ensures var p, q := Prepared(data, t)[i].pageNumber.value, Prepared(data, t)[i + 1].pageNumber.value;
      q == if p == |data| then 1 else p + 1
  {
    SuccMod(i - t, |data|);
  }

  /** Every slot is tagged with its own index, and shows one of the caller's
      pages with everything but the two tags unchanged. */
  lemma {:induction false} SlotsKeepCallerFields<T>(data: seq<Page<T>>, t: nat, i: nat)
    requires |data| > 0 && i < |data| + 2 * t
    ensures |Prepared(data, t)| == |data| + 2 * t
    ensures Prepared(data, t)[i].pageIndex == Some(i)
    ensures var r := Prepared(data, t)[i];
      r.pageNumber.Some? && 1 <= r.pageNumber.value <= |data| &&
      r.fields == data[r.pageNumber.value - 1].fields
  {
  }
}
