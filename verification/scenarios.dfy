/** Concrete walks through small catalogs: directional entry into a chapter,
    jumping to a quote, the unfiltered walk to the end of the list, and the
    one way an empty chapter makes rendering fail. */
module Scenarios {
  import opened Options
  import opened Catalog
  import opened Navigator
  import opened NavigatorInvariants

  function ChapterA(): Chapter {
    Chapter("A", "Chapter A", "first", [Quote("a1", "qa1", "ra1"), Quote("a2", "qa2", "ra2")])
  }

  function ChapterB(): Chapter {
    Chapter("B", "Chapter B", "second", [Quote("b1", "qb1", "rb1"), Quote("b2", "qb2", "rb2")])
  }

  function TwoChapters(): seq<Chapter> {
    [ChapterA(), ChapterB()]
  }

  lemma TwoChaptersViews()
    ensures ViewOf(TwoChapters(), Some("A")) == Entries(ChapterA())
    ensures ViewOf(TwoChapters(), Some("B")) == Entries(ChapterB())
    ensures ChapterPos(TwoChapters(), "A") == 0 && ChapterPos(TwoChapters(), "B") == 1
  {
    ChapterView(TwoChapters(), 0);
    ChapterView(TwoChapters(), 1);
    UniqueChapterPos(TwoChapters(), 0);
    UniqueChapterPos(TwoChapters(), 1);
  }

  lemma SelectA()
    ensures ShowChapter(TwoChapters(), Init(TwoChapters()), "A") == Step(Nav(Some("A"), Entries(ChapterA()), 0), Ok)
  {
    TwoChaptersViews();
  }

  lemma NextInsideA()
    ensures NextCard(TwoChapters(), Nav(Some("A"), Entries(ChapterA()), 0)) == Step(Nav(Some("A"), Entries(ChapterA()), 1), Ok)
  {
  }

  lemma NextIntoB()
    ensures NextCard(TwoChapters(), Nav(Some("A"), Entries(ChapterA()), 1)) == Step(Nav(Some("B"), Entries(ChapterB()), 0), Ok)
  {
    TwoChaptersViews();
  }

  lemma PrevIntoA()
    ensures PrevCard(TwoChapters(), Nav(Some("B"), Entries(ChapterB()), 0)) == Step(Nav(Some("A"), Entries(ChapterA()), 1), Ok)
  {
    TwoChaptersViews();
  }

  lemma JumpToA2()
    ensures ShowSpecificQuote(TwoChapters(), Init(TwoChapters()), "A", "a2").nav == Nav(Some("A"), Entries(ChapterA()), 1)
  {
    TwoChaptersViews();
    var e := Entries(ChapterA());
    assert e[0].id == "a1" && e[1].id == "a2";
    assert ChapterA().quotes[1].id == "a2";
  }

  lemma JumpToB1()
    ensures ShowSpecificQuote(TwoChapters(), Init(TwoChapters()), "B", "b1").nav == Nav(Some("B"), Entries(ChapterB()), 0)
  {
    TwoChaptersViews();
    assert Entries(ChapterB())[0].id == "b1";
    assert ChapterB().quotes[0].id == "b1";
  }

  /** Filtering to A and stepping forward from a2 lands on b1, the first card of B. */
  lemma ForwardEntersAtFirstCard()
    ensures var cat := TwoChapters();
      var s1 := ShowChapter(cat, Init(cat), "A").nav;
      var s2 := NextCard(cat, s1).nav;
      var s3 := NextCard(cat, s2);
      && Current(s2) == Some(Annotate(ChapterA(), ChapterA().quotes[1]))
      && s3.nav.active == Some("B")
      && Current(s3.nav) == Some(Annotate(ChapterB(), ChapterB().quotes[0]))
      && s3.status == Ok
  {
    SelectA();
    NextInsideA();
    NextIntoB();
  }

  /** Jumping to b1 and stepping back lands on a2, the last card of A, not a1. */
  lemma BackwardEntersAtLastCard()
    ensures var cat := TwoChapters();
      var s1 := ShowSpecificQuote(cat, Init(cat), "B", "b1").nav;
      var s2 := PrevCard(cat, s1);
      && s1.index == 0
      && s2.nav.active == Some("A")
      && s2.nav.index == 1
      && Current(s2.nav) == Some(Annotate(ChapterA(), ChapterA().quotes[1]))
  {
    JumpToB1();
    PrevIntoA();
  }

  /** Jumping to ("A", "a2") filters to A and selects its second card. */
  lemma JumpSelectsQuote()
    ensures var cat := TwoChapters();
      var s := ShowSpecificQuote(cat, Init(cat), "A", "a2");
      && s.nav.active == Some("A")
      && s.nav.view == [Annotate(ChapterA(), ChapterA().quotes[0]), Annotate(ChapterA(), ChapterA().quotes[1])]
      && s.nav.index == 1
  {
    JumpToA2();
  }

  function Ch1(): Chapter {
    Chapter("Ch1", "One", "", [Quote("q1", "", ""), Quote("q2", "", "")])
  }

  function Ch2(): Chapter {
    Chapter("Ch2", "Two", "", [Quote("q3", "", "")])
  }

  /** With no filter the view is all three quotes: `nextCard` walks q1, q2,
      q3 without ever setting a filter, and at q3 it silently does nothing. */
  lemma UnfilteredWalk()
    ensures var cat := [Ch1(), Ch2()];
      var s0 := Init(cat);
      var s1 := NextCard(cat, s0).nav;
      var s2 := NextCard(cat, s1).nav;
      var s3 := NextCard(cat, s2);
      && Current(s0) == Some(Annotate(Ch1(), Ch1().quotes[0]))
      && Current(s1) == Some(Annotate(Ch1(), Ch1().quotes[1]))
      && s2.active == None && Current(s2) == Some(Annotate(Ch2(), Ch2().quotes[0]))
      && s3 == Step(s2, Silent)
  {
    var cat := [Ch1(), Ch2()];
    assert AllQuotes(cat) == Entries(Ch1()) + Entries(Ch2()) by {
      assert cat[1..][1..] == [];
    }
  }

  function Hollow(): Chapter {
    Chapter("E", "Empty", "", [])
  }

  function Full(): Chapter {
    Chapter("F", "Full", "", [Quote("f1", "", "")])
  }

  /** With an empty chapter the bounds invariant fails: entering the empty
      chapter backwards sets the index to -1, and selecting the full chapter
      afterwards keeps -1 on a non-empty view, so rendering dereferences
      `undefined`. */
  lemma EmptyChapterBreaksRendering()
    ensures var cat := [Hollow(), Full()];
      var s1 := ShowChapter(cat, Init(cat), "F");
      var s2 := PrevCard(cat, s1.nav);
      var s3 := ShowChapter(cat, s2.nav, "F");
      && s1.status == Ok
      && s2.nav.active == Some("E") && s2.nav.view == [] && s2.nav.index == -1 && s2.status == Empty
      && |s3.nav.view| == 1 && s3.nav.index == -1 && s3.status == RenderError
  {
    var cat := [Hollow(), Full()];
    ChapterView(cat, 0);
    ChapterView(cat, 1);
    UniqueChapterPos(cat, 0);
    UniqueChapterPos(cat, 1);
  }

}
