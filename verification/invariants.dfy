/** The navigator's invariants: the view is the filtered catalog, the filter
    names a chapter, and, when every chapter has a quote, the index stays in
    bounds and rendering never fails, whatever commands are issued. Also the
    chapter-crossing round trips and the boundary policy. */
module NavigatorInvariants {
  import opened Options
  import opened Catalog
  import opened Navigator

  /** The commands the page wires to buttons, links and keys. */
  datatype Command =
    | SelectChapter(chapter: ChapterId)
    | JumpTo(chapter: ChapterId, quote: QuoteId)
    | Next
    | Prev
    | Random(draw: nat)

  /** A random draw is a position in the full flat list. */
  predicate Allowed(cat: seq<Chapter>, cmd: Command) {
    cmd.Random? ==> |AllQuotes(cat)| == 0 || cmd.draw < |AllQuotes(cat)|
  }

  /** The dispatch of buttons, sidebar links and keys to commands. Only a
      random draw clears a filter; a silent or boundary outcome leaves the
      state as it was; boundary reports come only from stepping, and a random
      draw is never silent. */
  function Apply(cat: seq<Chapter>, s: Nav, cmd: Command): (r: Step)
    requires Allowed(cat, cmd)
    ensures r.nav.active == None && s.active != None ==> cmd.Random?
    ensures r.status in {Silent, NoNextChapter, NoPrevChapter} ==> r.nav == s
    ensures r.status == NoNextChapter ==> cmd.Next?
    ensures r.status == NoPrevChapter ==> cmd.Prev?
    ensures cmd.Random? ==> r.status in {Ok, Empty}
  {
    match cmd
    case SelectChapter(c) => ShowChapter(cat, s, c)
    case JumpTo(c, q) => ShowSpecificQuote(cat, s, c, q)
    case Next => NextCard(cat, s)
    case Prev => PrevCard(cat, s)
    case Random(r) => ShowRandomCard(cat, s, r)
  }

  function Run(cat: seq<Chapter>, s: Nav, cmds: seq<Command>): Nav
    requires forall k :: 0 <= k < |cmds| ==> Allowed(cat, cmds[k])
    decreases cmds
  {
    if |cmds| == 0 then s else Run(cat, Apply(cat, s, cmds[0]).nav, cmds[1..])
  }

  /** The state invariant: the view is exactly the filtered catalog, a filter
      names a chapter of the catalog, and the index is 0 on an empty view and
      a valid position otherwise. */
  predicate Valid(cat: seq<Chapter>, s: Nav) {
    && s.view == ViewOf(cat, s.active)
    && (s.active.Some? ==> ChapterPos(cat, s.active.value) != -1)
    && (if |s.view| == 0 then s.index == 0 else 0 <= s.index < |s.view|)
  }

  /** View consistency alone: the view is exactly the filtered catalog and a
      filter names a chapter. Unlike `Valid`, it says nothing of the index. */
  predicate Consistent(cat: seq<Chapter>, s: Nav) {
    && s.view == ViewOf(cat, s.active)
    && (s.active.Some? ==> ChapterPos(cat, s.active.value) != -1)
  }

  /** Every command keeps the view consistent, for any catalog, including
      one with empty chapters. */
  lemma ApplyConsistent(cat: seq<Chapter>, s: Nav, cmd: Command)
    requires Consistent(cat, s) && Allowed(cat, cmd)
    ensures Consistent(cat, Apply(cat, s, cmd).nav)
  {
  }

  /** View consistency after any command sequence from a consistent state. */
  lemma {:induction false} RunConsistent(cat: seq<Chapter>, s: Nav, cmds: seq<Command>)
    requires Consistent(cat, s)
    requires forall k :: 0 <= k < |cmds| ==> Allowed(cat, cmds[k])
    ensures Consistent(cat, Run(cat, s, cmds))
    decreases cmds
  {
    if |cmds| > 0 {
      ApplyConsistent(cat, s, cmds[0]);
      RunConsistent(cat, Apply(cat, s, cmds[0]).nav, cmds[1..]);
    }
  }

  /** From the initial state, over any catalog, the view is always the
      flattened catalog restricted to the current filter. */
  lemma {:induction false} ConsistentFromInit(cat: seq<Chapter>, cmds: seq<Command>)
    requires forall k :: 0 <= k < |cmds| ==> Allowed(cat, cmds[k])
    ensures var s := Run(cat, Init(cat), cmds);
      s.view == ViewOf(cat, s.active) && (s.active.Some? ==> ChapterPos(cat, s.active.value) != -1)
  {
    RunConsistent(cat, Init(cat), cmds);
  }

  /** The catalog shape under which every command keeps the invariant and
      the chapter crossings are inverse to each other. */
  predicate WellFormed(cat: seq<Chapter>) {
    && AllNonEmpty(cat)
    && UniqueIds(cat)
    && forall i :: 0 <= i < |cat| ==> cat[i].id != ""
  }

  lemma InitValid(cat: seq<Chapter>)
    ensures Valid(cat, Init(cat))
    ensures Init(cat).active == None && Init(cat).view == AllQuotes(cat) && Init(cat).index == 0
  {
  }

  /** When every chapter has a quote, a filter naming a chapter (or no
      filter over a non-empty catalog) gives a non-empty view. */
  lemma ViewNonEmpty(cat: seq<Chapter>, a: Option<ChapterId>)
    requires AllNonEmpty(cat) && |cat| > 0
    requires a.Some? ==> ChapterPos(cat, a.value) != -1
    ensures |ViewOf(cat, a)| > 0
  {
    if Truthy(a) {
      var i := ChapterPos(cat, a.value);
      AllQuotesComplete(cat, i, 0);
      assert Annotate(cat[i], cat[i].quotes[0]) in ViewOf(cat, a);
    } else {
      AllQuotesComplete(cat, 0, 0);
    }
  }

  /** An empty catalog has an empty flat list. */
  lemma EmptyCatalogView(cat: seq<Chapter>, a: Option<ChapterId>)
    requires |cat| == 0
    ensures ViewOf(cat, a) == []
  {
  }

  /** One command keeps the invariant and never makes rendering fail,
      provided every chapter has at least one quote. */
  lemma {:induction false} ApplyValid(cat: seq<Chapter>, s: Nav, cmd: Command)
    requires AllNonEmpty(cat) && Valid(cat, s) && Allowed(cat, cmd)
    ensures Valid(cat, Apply(cat, s, cmd).nav)
    ensures Apply(cat, s, cmd).status != RenderError
  {
    if |cat| == 0 {
      EmptyCatalogView(cat, s.active);
      assert s.view == [];
      return;
    }
    ViewNonEmpty(cat, s.active);
    match cmd
    case SelectChapter(c) => SelectChapterValid(cat, s, c);
    case JumpTo(c, q) =>
    case Next => NextValid(cat, s);
    case Prev => PrevValid(cat, s);
    case Random(r) => AllQuotesComplete(cat, 0, 0);
  }

  lemma SelectChapterValid(cat: seq<Chapter>, s: Nav, c: ChapterId)
    requires AllNonEmpty(cat) && |cat| > 0 && Valid(cat, s) && |s.view| > 0
    ensures Valid(cat, ShowChapter(cat, s, c).nav) && ShowChapter(cat, s, c).status != RenderError
  {
    if ChapterPos(cat, c) != -1 {
      ViewNonEmpty(cat, Some(c));
    }
  }

  lemma NextValid(cat: seq<Chapter>, s: Nav)
    requires AllNonEmpty(cat) && |cat| > 0 && Valid(cat, s) && |s.view| > 0
    ensures Valid(cat, NextCard(cat, s).nav) && NextCard(cat, s).status != RenderError
  {
    if s.index >= |s.view| - 1 && Truthy(s.active) {
      var ci := ChapterPos(cat, s.active.value);
      if 0 <= ci < |cat| - 1 {
        assert ChapterPos(cat, cat[ci + 1].id) != -1;
        ViewNonEmpty(cat, Some(cat[ci + 1].id));
      }
    }
  }

  lemma PrevValid(cat: seq<Chapter>, s: Nav)
    requires AllNonEmpty(cat) && |cat| > 0 && Valid(cat, s) && |s.view| > 0
    ensures Valid(cat, PrevCard(cat, s).nav) && PrevCard(cat, s).status != RenderError
  {
    if s.index <= 0 && Truthy(s.active) {
      var ci := ChapterPos(cat, s.active.value);
      if 0 < ci {
        assert ChapterPos(cat, cat[ci - 1].id) != -1;
        ViewNonEmpty(cat, Some(cat[ci - 1].id));
      }
    }
  }

  /** The bounds invariant for any command sequence from a valid state. */
  lemma {:induction false} RunValid(cat: seq<Chapter>, s: Nav, cmds: seq<Command>)
    requires AllNonEmpty(cat) && Valid(cat, s)
    requires forall k :: 0 <= k < |cmds| ==> Allowed(cat, cmds[k])
    ensures Valid(cat, Run(cat, s, cmds))
    decreases cmds
  {
    if |cmds| > 0 {
      ApplyValid(cat, s, cmds[0]);
      RunValid(cat, Apply(cat, s, cmds[0]).nav, cmds[1..]);
    }
  }

  /** From the initial state, after any commands, the view is the filtered
      catalog and the index is a valid position of a non-empty view (0 on an
      empty one), when every chapter holds at least one quote. */
  lemma {:induction false} BoundsFromInit(cat: seq<Chapter>, cmds: seq<Command>)
    requires AllNonEmpty(cat)
    requires forall k :: 0 <= k < |cmds| ==> Allowed(cat, cmds[k])
    ensures var s := Run(cat, Init(cat), cmds);
      && s.view == ViewOf(cat, s.active)
      && (|s.view| > 0 ==> 0 <= s.index < |s.view|)
      && (|s.view| == 0 ==> s.index == 0)
  {
    InitValid(cat);
    RunValid(cat, Init(cat), cmds);
  }

  /** With unique ids, looking a chapter's id up finds that chapter. */
  lemma UniqueChapterPos(cat: seq<Chapter>, i: nat)
    requires UniqueIds(cat) && i < |cat|
    ensures ChapterPos(cat, cat[i].id) == i
  {
  }

  /** With unique ids, filtering to a chapter's (truthy) id gives exactly that
      chapter's annotated quotes, in order. */
  lemma ChapterView(cat: seq<Chapter>, i: nat)
    requires UniqueIds(cat) && i < |cat| && cat[i].id != ""
    ensures ViewOf(cat, Some(cat[i].id)) == Entries(cat[i])
  {
    ChaptersWithUniqueId(cat, i);
    assert AllQuotes([cat[i]]) == Entries(cat[i]) by {
      assert [cat[i]][1..] == [];
    }
  }

  /** Inside a view, stepping forward then back returns to the same state. */
  lemma StepForwardBack(cat: seq<Chapter>, s: Nav)
    requires 0 <= s.index < |s.view| - 1
    ensures PrevCard(cat, NextCard(cat, s).nav).nav == s
  {
  }

  /** Inside a view, stepping back then forward returns to the same state. */
  lemma StepBackForward(cat: seq<Chapter>, s: Nav)
    requires 0 < s.index < |s.view|
    ensures NextCard(cat, PrevCard(cat, s).nav).nav == s
  {
  }

  /** Crossing from the last card of chapter i into chapter i+1 and back
      returns to the same state. */
  lemma CrossForwardBack(cat: seq<Chapter>, s: Nav, i: nat)
    requires WellFormed(cat) && Valid(cat, s)
    requires i + 1 < |cat| && s.active == Some(cat[i].id) && s.index == |s.view| - 1
    ensures NextCard(cat, s).nav.active == Some(cat[i + 1].id)
    ensures NextCard(cat, s).nav.view == Entries(cat[i + 1])
    ensures PrevCard(cat, NextCard(cat, s).nav).nav == s
  {
    UniqueChapterPos(cat, i);
    UniqueChapterPos(cat, i + 1);
    ChapterView(cat, i);
    ChapterView(cat, i + 1);
  }

  /** Crossing from the first card of chapter i+1 back into chapter i (landing
      on its last card) and forward again returns to the same state. */
  lemma CrossBackForward(cat: seq<Chapter>, s: Nav, i: nat)
    requires WellFormed(cat) && Valid(cat, s)
    requires i + 1 < |cat| && s.active == Some(cat[i + 1].id) && s.index == 0
    ensures PrevCard(cat, s).nav.active == Some(cat[i].id)
    ensures PrevCard(cat, s).nav.view == Entries(cat[i])
    ensures PrevCard(cat, s).nav.index == |cat[i].quotes| - 1
    ensures NextCard(cat, PrevCard(cat, s).nav).nav == s
  {
    UniqueChapterPos(cat, i);
    UniqueChapterPos(cat, i + 1);
    ChapterView(cat, i);
    ChapterView(cat, i + 1);
  }

  /** At the last card of the last chapter, with that chapter as filter,
      `nextCard` changes nothing and reports that no chapter follows. */
  lemma NextAtLastChapter(cat: seq<Chapter>, s: Nav)
    requires WellFormed(cat) && Valid(cat, s) && |cat| > 0
    requires s.active == Some(cat[|cat| - 1].id) && s.index == |s.view| - 1
    ensures NextCard(cat, s) == Step(s, NoNextChapter)
  {
    UniqueChapterPos(cat, |cat| - 1);
    ViewNonEmpty(cat, s.active);
  }

  /** At the first card of the first chapter, with that chapter as filter,
      `prevCard` changes nothing and reports that no chapter precedes. */
  lemma PrevAtFirstChapter(cat: seq<Chapter>, s: Nav)
    requires Valid(cat, s) && |cat| > 0 && |cat[0].quotes| > 0 && cat[0].id != ""
    requires s.active == Some(cat[0].id) && s.index == 0
    ensures PrevCard(cat, s) == Step(s, NoPrevChapter)
  {
    AllQuotesComplete(cat, 0, 0);
    assert Annotate(cat[0], cat[0].quotes[0]) in s.view;
  }

  /** Without a filter the view is the whole list, so at its end `nextCard`
      neither crosses a chapter nor reports anything. */
  lemma NextAtEndUnfiltered(cat: seq<Chapter>, s: Nav)
    requires Valid(cat, s) && s.active == None && |s.view| > 0 && s.index == |s.view| - 1
    ensures NextCard(cat, s) == Step(s, Silent)
  {
  }

}
