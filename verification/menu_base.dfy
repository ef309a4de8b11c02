/** `MenuBase`: the fixed-capacity registry of menu pages and the
    navigation it dispatches.

    The registry is a value: the array of page pointers, the current index
    `curPage` and the number of registered pages `maxPage`. Pages are
    referred to by identity only; what a page does when it is activated,
    updated or asked to move its line is the page's own (virtual) business,
    so each operation returns the calls it makes on pages, in order, next to
    the new registry.
 */
module MenuBases {

  import opened CInt

  /** Capacity of the `pages` array. */
  const MAXPAGES: int := 10

  /** A `MenuPage*` slot: null, or a page known by its identity. */
  datatype PageRef = Null | Page(id: nat)

  /** A virtual call made on a page. */
  datatype PageCall =
    | ActivateCall(page: nat)
    | LineUpCall(page: nat)
    | LineDownCall(page: nat)
    | UpdateCall(page: nat)

  /** The `short` indices and the pointer array of a `MenuBase`. */
  datatype MenuBase = MenuBase(curPage: Int16, maxPage: Int16, pages: seq<PageRef>)

  /** The registry after an operation and the page calls it made. */
  datatype Step = Step(base: MenuBase, calls: seq<PageCall>)

  /** The array has its `MAXPAGES` slots, the page count fits in it and the
      current index names a slot of the array. */
  predicate Wf(m: MenuBase)
  {
    |m.pages| == MAXPAGES && 0 <= m.maxPage <= MAXPAGES && 0 <= m.curPage < MAXPAGES
  }

  /** The current index names a registered page. */
  predicate InRange(m: MenuBase)
  {
    0 <= m.curPage < m.maxPage
  }

  /** The current slot holds a page. */
  predicate CurrentIsPage(m: MenuBase)
    requires Wf(m)
  {
    m.pages[m.curPage].Page?
  }

  /** Every registered slot holds a page. */
  predicate AllRegistered(m: MenuBase)
    requires Wf(m)
  {
    forall i :: 0 <= i < m.maxPage ==> m.pages[i].Page?
  }

  /** The calls of `r` are one `activate()` on the page now current, if that
      slot holds a page, and nothing otherwise. */
  predicate ActivatedOnlyCurrent(r: Step)
  {
    Wf(r.base) &&
    (CurrentIsPage(r.base) ==> r.calls == [ActivateCall(r.base.pages[r.base.curPage].id)]) &&
    (!CurrentIsPage(r.base) ==> r.calls == [])
  }

  /** Make slot `i` current and call `activate()` on it if it holds a page. */
  function Enter(m: MenuBase, i: int): Step
    requires Wf(m) && 0 <= i < MAXPAGES
  {
    match m.pages[i]
    case Page(id) => Step(m.(curPage := i), [ActivateCall(id)])
    case Null => Step(m.(curPage := i), [])
  }

  /** `pageUp()`: advance to the next page, wrapping to the first. */
  function PageUp(m: MenuBase): (r: Step)
    requires Wf(m)
    ensures Wf(r.base) && r.base.maxPage == m.maxPage && r.base.pages == m.pages
    ensures InRange(m) ==> InRange(r.base) && r.base.curPage == (m.curPage + 1) % m.maxPage
    ensures !InRange(m) ==> r.base.curPage == 0
    ensures ActivatedOnlyCurrent(r)
  {
    var next := m.curPage + 1;
    Enter(m, if next >= m.maxPage then 0 else next)
  }

  /** `pageDown()`: go back to the previous page, wrapping to the last.
      On an empty registry with index 0 the source would read slot
      `maxPage - 1 == -1`, before the array; that call is excluded. */
  function PageDown(m: MenuBase): (r: Step)
    requires Wf(m) && (m.curPage > 0 || m.maxPage > 0)
    ensures Wf(r.base) && r.base.maxPage == m.maxPage && r.base.pages == m.pages
    ensures InRange(m) ==> InRange(r.base) && r.base.curPage == (m.curPage - 1) % m.maxPage
    ensures !InRange(m) ==> r.base.curPage == m.curPage - 1
    ensures ActivatedOnlyCurrent(r)
  {
    var prev := m.curPage - 1;
    var i := if prev < 0 then m.maxPage - 1 else prev;
    assert InRange(m) ==> i == prev % m.maxPage by {
      if InRange(m) {
        if prev < 0 {
          DivModUnique(prev, m.maxPage, -1, i);
        } else {
          DivModUnique(prev, m.maxPage, 0, i);
        }
      }
    }
    Enter(m, i)
  }

  /** `lineUp()`: forwarded to the current page when there is one. */
  function LineUp(m: MenuBase): (r: Step)
    requires Wf(m)
    ensures r.base == m
    ensures CurrentIsPage(m) ==> r.calls == [LineUpCall(m.pages[m.curPage].id)]
    ensures !CurrentIsPage(m) ==> r.calls == []
  {
    match m.pages[m.curPage]
    case Page(id) => Step(m, [LineUpCall(id)])
    case Null => Step(m, [])
  }

  /** `lineDown()`: forwarded to the current page when there is one. */
  function LineDown(m: MenuBase): (r: Step)
    requires Wf(m)
    ensures r.base == m
    ensures CurrentIsPage(m) ==> r.calls == [LineDownCall(m.pages[m.curPage].id)]
    ensures !CurrentIsPage(m) ==> r.calls == []
  {
    match m.pages[m.curPage]
    case Page(id) => Step(m, [LineDownCall(id)])
    case Null => Step(m, [])
  }

  /** `update()`: forwarded to the current page without a null check, so
      the current slot must hold a page. */
  function Update(m: MenuBase): (r: Step)
    requires Wf(m) && CurrentIsPage(m)
    ensures r.base == m
    ensures r.calls == [UpdateCall(m.pages[m.curPage].id)]
  {
    Step(m, [UpdateCall(m.pages[m.curPage].id)])
  }

  /** Adding to a residue and reducing again is reducing the sum. */
  lemma {:induction false} ModAddLeft(a: int, k: int, n: int)
    requires 0 < n
    ensures (a % n + k) % n == (a + k) % n
  {
    var t := a % n + k;
    NatDivMod(0, n);
    assert a == (a / n) * n + a % n;
    assert t == (t / n) * n + t % n;
    assert a + k == (a / n + t / n) * n + t % n;
    DivModUnique(a + k, n, a / n + t / n, t % n);
  }

  /** `k` consecutive `pageUp()` calls, with all the page calls they make. */
  function PageUps(m: MenuBase, k: nat): (r: Step)
    requires Wf(m)
    ensures Wf(r.base) && r.base.maxPage == m.maxPage && r.base.pages == m.pages
    ensures InRange(m) ==> InRange(r.base) && r.base.curPage == (m.curPage + k) % m.maxPage
    ensures |r.calls| <= k
    decreases k
  {
    if k == 0 then
      Step(m, [])
    else
      var t := PageUps(m, k - 1);
      var s := PageUp(t.base);
      assert InRange(m) ==> s.base.curPage == (m.curPage + k) % m.maxPage by {
        if InRange(m) {
          ModAddLeft(m.curPage + k - 1, 1, m.maxPage);
        }
      }
      Step(s.base, t.calls + s.calls)
  }

  /** `maxPage` consecutive `pageUp()` calls bring the registry back to
      where it started. */
  lemma {:induction false} PageUpCycle(m: MenuBase)
    requires Wf(m) && InRange(m)
    ensures PageUps(m, m.maxPage as nat).base == m
  {
    FullTurn(m.curPage, m.maxPage);
  }

  /** Going once around the cycle of `n` slots lands where it started. */
  lemma {:induction false} FullTurn(c: int, n: int)
    requires 0 <= c < n
    ensures (c + n) % n == c
  {
    DivModUnique(c + n, n, 1, c);
  }

  /** `calls` are activations of consecutive pages, the `j`-th one of the
      page `j + 1` slots after `start`, cyclically over the registered slots. */
  predicate ActivatesInOrder(m: MenuBase, start: int, calls: seq<PageCall>)
    requires Wf(m) && 0 < m.maxPage
  {
    forall j :: 0 <= j < |calls| ==>
      calls[j].ActivateCall? && m.pages[(start + j + 1) % m.maxPage] == Page(calls[j].page)
  }

  /** When every registered slot holds a page, `k` page-ups activate exactly
      `k` pages: the `j`-th call activates the page `j + 1` places after the
      starting one, cyclically. */
  lemma {:induction false} PageUpsActivateInOrder(m: MenuBase, k: nat)
    requires Wf(m) && InRange(m) && AllRegistered(m)
    ensures |PageUps(m, k).calls| == k
    ensures ActivatesInOrder(m, m.curPage, PageUps(m, k).calls)
    decreases k
  {
    if k > 0 {
      var n := m.maxPage;
      var t := PageUps(m, k - 1);
      PageUpsActivateInOrder(m, k - 1);
      var s := PageUp(t.base);
      assert CurrentIsPage(s.base);
      ModAddLeft(m.curPage + k - 1, 1, n);
      assert s.calls == [ActivateCall(m.pages[(m.curPage + k) % n].id)];
      assert PageUps(m, k).calls == t.calls + s.calls;
    }
  }

  /** On a registry whose index is in range, `pageDown()` undoes
      `pageUp()` and `pageUp()` undoes `pageDown()`. */
  lemma {:induction false} PageUpDownInverse(m: MenuBase)
    requires Wf(m) && InRange(m)
    ensures PageDown(PageUp(m).base).base == m
    ensures PageUp(PageDown(m).base).base == m
  {
  }
}
