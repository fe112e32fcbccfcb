/** The navigation state machine of the flashcard page: an optional chapter
    filter, the filtered view and the selected index, over a read-only
    catalog. Every command is a pure function from the old state to a
    `Step`: the new state and the status the page would show (a toast, the
    empty-state card, or nothing). */
module Navigator {
  import opened Options
  import opened Catalog

  /** What the page shows after a command. `Ok` and `Empty` are the two
      outcomes of `updateDisplay`; `RenderError` is the `TypeError` it throws
      when the index points outside a non-empty view; `Silent` is an early
      return that neither renders nor toasts. */
  datatype Status = Ok | Empty | NoNextChapter | NoPrevChapter | Silent | RenderError

  /** `activeChapterId`, `filteredQuotes`, `currentIndex`. */
  datatype Nav = Nav(active: Option<ChapterId>, view: seq<FlatQuote>, index: int)

  datatype Step = Step(nav: Nav, status: Status)

  /** JavaScript truthiness of `activeChapterId`: `null` and `""` are falsy. */
  predicate Truthy(a: Option<ChapterId>) {
    a.Some? && a.value != ""
  }

  /** The list `buildCurrentQuotes` computes for a filter value. */
  function ViewOf(cat: seq<Chapter>, a: Option<ChapterId>): (r: seq<FlatQuote>)
    ensures !Truthy(a) ==> r == AllQuotes(cat)
    ensures Truthy(a) ==> r == AllQuotes(ChaptersWithId(cat, a.value))
    ensures Truthy(a) ==> forall x :: x in r <==> x in AllQuotes(cat) && x.chapterId == a.value
  {
    if Truthy(a) then
      FilterFlattenCommute(cat, a.value);
      FilterChapter(AllQuotes(cat), a.value)
    else AllQuotes(cat)
  }

  /** The state the constructor and `loadData` establish. */
  function Init(cat: seq<Chapter>): (r: Nav)
    ensures r.active == None && r.view == ViewOf(cat, None) && r.index == 0
    ensures |r.view| == QuoteCount(cat)
    ensures Display(r) == if QuoteCount(cat) == 0 then Empty else Ok
  {
    Nav(None, AllQuotes(cat), 0)
  }

  /** `filteredQuotes[currentIndex]`, which is `undefined` out of range. */
  function Current(s: Nav): (r: Option<FlatQuote>)
    ensures r.None? <==> s.index < 0 || |s.view| <= s.index
    ensures r.Some? ==> r.value in s.view && r.value == s.view[s.index]
  {
    if 0 <= s.index < |s.view| then Some(s.view[s.index]) else None
  }

  /** The outcome of `updateDisplay` on a state. */
  function Display(s: Nav): (r: Status)
    ensures r == Ok <==> Current(s).Some?
    ensures r == Empty <==> |s.view| == 0
    ensures r in {Ok, Empty, RenderError}
  {
    if |s.view| == 0 then Empty
    else if 0 <= s.index < |s.view| then Ok
    else RenderError
  }

  /** `buildCurrentQuotes`: recompute the view for the current filter and pull
      an index that is past the end back onto the last position (0 when the
      view is empty). An index inside the new view, or negative, is kept. */
  function Rebuild(cat: seq<Chapter>, s: Nav): (r: Nav)
    ensures r.active == s.active && r.view == ViewOf(cat, s.active)
    ensures s.index < |r.view| ==> r.index == s.index
    ensures s.index >= |r.view| ==> r.index == if |r.view| == 0 then 0 else |r.view| - 1
    ensures 0 <= s.index ==> 0 <= r.index && (|r.view| > 0 ==> r.index < |r.view|)
  {
    var v := ViewOf(cat, s.active);
    var i := if s.index >= |v| then (if |v| - 1 > 0 then |v| - 1 else 0) else s.index;
    Nav(s.active, v, i)
  }

  /** `showChapter`: an unknown id is ignored; a known one becomes the filter,
      the view is rebuilt and the old index is kept, clamped, not reset. */
  function ShowChapter(cat: seq<Chapter>, s: Nav, c: ChapterId): (r: Step)
    ensures ChapterPos(cat, c) == -1 ==> r == Step(s, Silent)
    ensures ChapterPos(cat, c) != -1 ==>
      && r.nav.active == Some(c)
      && r.nav.view == ViewOf(cat, Some(c))
      && (s.index < |r.nav.view| ==> r.nav.index == s.index)
      && (s.index >= |r.nav.view| > 0 ==> r.nav.index == |r.nav.view| - 1)
      && (|r.nav.view| == 0 ==> r.status == Empty && r.nav.index == if s.index < 0 then s.index else 0)
      && (0 <= s.index && |r.nav.view| > 0 ==> r.status == Ok)
      && (s.index < 0 && |r.nav.view| > 0 ==> r.status == RenderError)
  {
    if ChapterPos(cat, c) == -1 then Step(s, Silent)
    else
      var t := Rebuild(cat, s.(active := Some(c)));
      Step(t, Display(t))
  }

  /** `showSpecificQuote`: an unknown chapter, or a quote id that the first
      chapter with that id does not hold, changes nothing. Otherwise the
      chapter becomes the filter and the index lands on the first entry of
      the new view with that quote id; the fallback to 0 is never needed. */
  function ShowSpecificQuote(cat: seq<Chapter>, s: Nav, c: ChapterId, q: QuoteId): (r: Step)
    ensures ChapterPos(cat, c) == -1 ==> r == Step(s, Silent)
    ensures ChapterPos(cat, c) != -1 && QuoteInChapter(cat[ChapterPos(cat, c)], q) == -1 ==>
      r == Step(s, Silent)
    ensures ChapterPos(cat, c) != -1 && QuoteInChapter(cat[ChapterPos(cat, c)], q) != -1 ==>
      && r.nav.active == Some(c)
      && r.nav.view == ViewOf(cat, Some(c))
      && 0 <= r.nav.index < |r.nav.view|
      && r.nav.view[r.nav.index].id == q
      && (forall k :: 0 <= k < r.nav.index ==> r.nav.view[k].id != q)
      && r.status == Ok
  {
    var ci := ChapterPos(cat, c);
    if ci == -1 then Step(s, Silent)
    else
      var qi := QuoteInChapter(cat[ci], q);
      if qi == -1 then Step(s, Silent)
      else
        var t := Rebuild(cat, s.(active := Some(c)));
        var k := QuotePos(t.view, q);
        var u := t.(index := if k == -1 then 0 else k);
        FoundQuoteIsInView(cat, ci, qi, c);
        Step(u, Display(u))
  }

  /** The quote `showSpecificQuote` checked for is in the view it rebuilds. */
  lemma FoundQuoteIsInView(cat: seq<Chapter>, ci: int, qi: int, c: ChapterId)
    requires 0 <= ci < |cat| && cat[ci].id == c && 0 <= qi < |cat[ci].quotes|
    ensures Annotate(cat[ci], cat[ci].quotes[qi]) in ViewOf(cat, Some(c))
  {
    AllQuotesComplete(cat, ci, qi);
  }

  /** `showRandomCard` with the drawn position `r` standing for
      `Math.floor(Math.random() * allQuotes.length)`. The draw is from the
      whole catalog; the filter is kept when the drawn id is already shown
      or occurs in the view, and cleared otherwise. Matching is by quote id. */
  function ShowRandomCard(cat: seq<Chapter>, s: Nav, r: nat): (res: Step)
    requires |AllQuotes(cat)| == 0 || r < |AllQuotes(cat)|
    ensures |AllQuotes(cat)| == 0 ==> res == Step(s, Empty)
    ensures |AllQuotes(cat)| > 0 ==>
      && 0 <= res.nav.index < |res.nav.view|
      && res.nav.view[res.nav.index].id == AllQuotes(cat)[r].id
      && res.status == Ok
    ensures |AllQuotes(cat)| > 0 && Current(s).Some? && Current(s).value.id == AllQuotes(cat)[r].id ==>
      res.nav == s
    ensures |AllQuotes(cat)| > 0 && QuotePos(s.view, AllQuotes(cat)[r].id) != -1 ==>
      && res.nav.active == s.active
      && res.nav.view == s.view
    ensures && |AllQuotes(cat)| > 0
            && QuotePos(s.view, AllQuotes(cat)[r].id) != -1
            && !(Current(s).Some? && Current(s).value.id == AllQuotes(cat)[r].id)
            ==>
      res.nav.index == QuotePos(s.view, AllQuotes(cat)[r].id)
    ensures |AllQuotes(cat)| > 0 && QuotePos(s.view, AllQuotes(cat)[r].id) == -1 ==>
      && res.nav.active == None
      && res.nav.view == AllQuotes(cat)
      && res.nav.index == QuotePos(AllQuotes(cat), AllQuotes(cat)[r].id)
  {
    var all := AllQuotes(cat);
    if |all| == 0 then Step(s, Empty)
    else
      var selected := all[r];
      var cur := Current(s);
      if cur.Some? && cur.value.id == selected.id then Step(s, Display(s))
      else
        var k := QuotePos(s.view, selected.id);
        if k != -1 then
          var u := s.(index := k);
          Step(u, Display(u))
        else
          var t := Rebuild(cat, s.(active := None));
          var u := t.(index := QuotePos(t.view, selected.id));
          Step(u, Display(u))
  }

  /** `navigateToNextChapter`: without a (truthy) filter, or with a filter no
      chapter carries, nothing happens; at the last chapter the page says so;
      otherwise the next chapter in catalog order becomes the filter and its
      first card is selected. */
  function NavigateToNextChapter(cat: seq<Chapter>, s: Nav): (r: Step)
    ensures !Truthy(s.active) ==> r == Step(s, Silent)
    ensures Truthy(s.active) && ChapterPos(cat, s.active.value) == -1 ==> r == Step(s, Silent)
    ensures Truthy(s.active) && |cat| > 0 && ChapterPos(cat, s.active.value) == |cat| - 1 ==>
      r == Step(s, NoNextChapter)
    ensures Truthy(s.active) && 0 <= ChapterPos(cat, s.active.value) < |cat| - 1 ==>
      var next := cat[ChapterPos(cat, s.active.value) + 1];
      && r.nav == Nav(Some(next.id), ViewOf(cat, Some(next.id)), 0)
      && r.status == (if |ViewOf(cat, Some(next.id))| == 0 then Empty else Ok)
  {
    if !Truthy(s.active) then Step(s, Silent)
    else
      var ci := ChapterPos(cat, s.active.value);
      if ci == -1 then Step(s, Silent)
      else if ci < |cat| - 1 then
        var t := Rebuild(cat, s.(active := Some(cat[ci + 1].id)));
        var u := t.(index := 0);
        Step(u, Display(u))
      else Step(s, NoNextChapter)
  }

  /** `navigateToPrevChapter`: symmetric to the next-chapter crossing, except
      that the previous chapter's last card is selected, which is -1 when
      that chapter has no quotes. */
  function NavigateToPrevChapter(cat: seq<Chapter>, s: Nav): (r: Step)
    ensures !Truthy(s.active) ==> r == Step(s, Silent)
    ensures Truthy(s.active) && ChapterPos(cat, s.active.value) == -1 ==> r == Step(s, Silent)
    ensures Truthy(s.active) && ChapterPos(cat, s.active.value) == 0 ==> r == Step(s, NoPrevChapter)
    ensures Truthy(s.active) && 0 < ChapterPos(cat, s.active.value) ==>
      var prev := cat[ChapterPos(cat, s.active.value) - 1];
      var v := ViewOf(cat, Some(prev.id));
      && r.nav == Nav(Some(prev.id), v, |v| - 1)
      && r.status == (if |v| == 0 then Empty else Ok)
  {
    if !Truthy(s.active) then Step(s, Silent)
    else
      var ci := ChapterPos(cat, s.active.value);
      if ci == -1 then Step(s, Silent)
      else if ci > 0 then
        var t := Rebuild(cat, s.(active := Some(cat[ci - 1].id)));
        var u := t.(index := |t.view| - 1);
        Step(u, Display(u))
      else Step(s, NoPrevChapter)
  }

  /** `nextCard`: an empty view is reported and left alone; before the last
      position the index advances by one; at (or past) the last position the
      next-chapter crossing is attempted. */
  function NextCard(cat: seq<Chapter>, s: Nav): (r: Step)
    ensures |s.view| == 0 ==> r == Step(s, Empty)
    ensures |s.view| > 0 && s.index < |s.view| - 1 ==>
      r.nav == Nav(s.active, s.view, s.index + 1) && (s.index >= -1 ==> r.status == Ok)
    ensures |s.view| > 0 && s.index >= |s.view| - 1 ==> r == NavigateToNextChapter(cat, s)
  {
    if |s.view| == 0 then Step(s, Empty)
    else if s.index < |s.view| - 1 then
      var u := s.(index := s.index + 1);
      Step(u, Display(u))
    else NavigateToNextChapter(cat, s)
  }

  /** `prevCard`: an empty view is reported and left alone; after the first
      position the index steps back by one; at (or before) the first position
      the previous-chapter crossing is attempted. */
  function PrevCard(cat: seq<Chapter>, s: Nav): (r: Step)
    ensures |s.view| == 0 ==> r == Step(s, Empty)
    ensures |s.view| > 0 && s.index > 0 ==>
      r.nav == Nav(s.active, s.view, s.index - 1) && (s.index <= |s.view| ==> r.status == Ok)
    ensures |s.view| > 0 && s.index <= 0 ==> r == NavigateToPrevChapter(cat, s)
  {
    if |s.view| == 0 then Step(s, Empty)
    else if s.index > 0 then
      var u := s.(index := s.index - 1);
      Step(u, Display(u))
    else NavigateToPrevChapter(cat, s)
  }

}
