/** The read-only catalog of chapters and quotes, its flattening into one
    annotated list (`getAllQuotes`), the chapter filter applied to that list
    (`buildCurrentQuotes`), and `Array.prototype.findIndex`. */
module Catalog {

  /** Ids come from the catalog data and from DOM `data-*` attributes, which
      are strings; they are compared with `===`. */
  type ChapterId = string
  type QuoteId = string

  datatype Quote = Quote(id: QuoteId, question: string, answer: string)

  datatype Chapter = Chapter(id: ChapterId, title: string, subtitle: string, quotes: seq<Quote>)

  /** A quote spread into a new object together with its owning chapter's
      id, title and subtitle. */
  datatype FlatQuote = FlatQuote(
    id: QuoteId, question: string, answer: string,
    chapterId: ChapterId, chapterTitle: string, chapterSubtitle: string)

  function Annotate(ch: Chapter, q: Quote): FlatQuote {
    FlatQuote(q.id, q.question, q.answer, ch.id, ch.title, ch.subtitle)
  }

  /** The annotated quotes of one chapter, in the chapter's order. */
  function Entries(ch: Chapter): seq<FlatQuote> {
    seq(|ch.quotes|, j requires 0 <= j < |ch.quotes| => Annotate(ch, ch.quotes[j]))
  }

  /** The number of quotes in the catalog. */
  function QuoteCount(cat: seq<Chapter>): nat {
    if |cat| == 0 then 0 else |cat[0].quotes| + QuoteCount(cat[1..])
  }

  /** `getAllQuotes`: every quote of every chapter, annotated, in catalog order. */
  function AllQuotes(cat: seq<Chapter>): (r: seq<FlatQuote>)
    ensures |r| == QuoteCount(cat)
  {
    if |cat| == 0 then [] else Entries(cat[0]) + AllQuotes(cat[1..])
  }

  /** `quotes.filter(q => q.chapterId === c)`. */
  function FilterChapter(qs: seq<FlatQuote>, c: ChapterId): (r: seq<FlatQuote>)
    ensures |r| <= |qs|
    ensures forall x :: x in r <==> x in qs && x.chapterId == c
  {
    if |qs| == 0 then []
    else if qs[0].chapterId == c then [qs[0]] + FilterChapter(qs[1..], c)
    else FilterChapter(qs[1..], c)
  }

  /** The chapters whose id is `c`, in catalog order. */
  function ChaptersWithId(cat: seq<Chapter>, c: ChapterId): seq<Chapter> {
    if |cat| == 0 then []
    else if cat[0].id == c then [cat[0]] + ChaptersWithId(cat[1..], c)
    else ChaptersWithId(cat[1..], c)
  }

  /** `Array.prototype.findIndex`: the first position satisfying `p`, or -1. */
  function FindFirst<T>(s: seq<T>, p: T -> bool): (r: int)
    ensures -1 <= r < |s|
    ensures r == -1 <==> forall k :: 0 <= k < |s| ==> !p(s[k])
    ensures 0 <= r ==> p(s[r]) && forall k :: 0 <= k < r ==> !p(s[k])
  {
    if |s| == 0 then -1
    else if p(s[0]) then 0
    else
      var k := FindFirst(s[1..], p);
      if k == -1 then -1 else k + 1
  }

  /** `chapters.findIndex(c => c.id === id)`; `chapters.find` succeeds exactly
      when this is not -1. */
  function ChapterPos(cat: seq<Chapter>, id: ChapterId): (r: int)
    ensures -1 <= r < |cat|
    ensures r == -1 <==> forall k :: 0 <= k < |cat| ==> cat[k].id != id
    ensures 0 <= r ==> cat[r].id == id && forall k :: 0 <= k < r ==> cat[k].id != id
  {
    FindFirst(cat, (ch: Chapter) => ch.id == id)
  }

  /** `quotes.findIndex(q => q.id === id)` on an annotated list. */
  function QuotePos(qs: seq<FlatQuote>, id: QuoteId): (r: int)
    ensures -1 <= r < |qs|
    ensures r == -1 <==> forall k :: 0 <= k < |qs| ==> qs[k].id != id
    ensures 0 <= r ==> qs[r].id == id && forall k :: 0 <= k < r ==> qs[k].id != id
  {
    FindFirst(qs, (x: FlatQuote) => x.id == id)
  }

  /** `chapter.quotes.find(q => q.id === id)` succeeds exactly when this is not -1. */
  function QuoteInChapter(ch: Chapter, id: QuoteId): (r: int)
    ensures -1 <= r < |ch.quotes|
    ensures r == -1 <==> forall k :: 0 <= k < |ch.quotes| ==> ch.quotes[k].id != id
    ensures 0 <= r ==> ch.quotes[r].id == id
  {
    FindFirst(ch.quotes, (x: Quote) => x.id == id)
  }

  predicate AllNonEmpty(cat: seq<Chapter>) {
    forall i :: 0 <= i < |cat| ==> |cat[i].quotes| > 0
  }

  predicate UniqueIds(cat: seq<Chapter>) {
    forall i, j :: 0 <= i < j < |cat| ==> cat[i].id != cat[j].id
  }

  /** Flattening distributes over catalog concatenation: the flat list is the
      chapters' entries laid end to end in catalog order. */
  lemma {:induction false} AllQuotesAppend(a: seq<Chapter>, b: seq<Chapter>)
    ensures AllQuotes(a + b) == AllQuotes(a) + AllQuotes(b)
  {
    if |a| == 0 {
      assert a + b == b;
    } else {
      assert (a + b)[1..] == a[1..] + b;
      AllQuotesAppend(a[1..], b);
    }
  }

  /** Every quote of every chapter appears, annotated, in the flat list. */
  lemma {:induction false} AllQuotesComplete(cat: seq<Chapter>, i: nat, j: nat)
    requires i < |cat| && j < |cat[i].quotes|
    ensures Annotate(cat[i], cat[i].quotes[j]) in AllQuotes(cat)
  {
    if i == 0 {
      assert Entries(cat[0])[j] == Annotate(cat[0], cat[0].quotes[j]);
    } else {
      AllQuotesComplete(cat[1..], i - 1, j);
    }
  }

  /** Every entry of the flat list is some chapter's quote, annotated with
      that chapter. */
  lemma {:induction false} AllQuotesSound(cat: seq<Chapter>, x: FlatQuote)
    requires x in AllQuotes(cat)
    ensures exists i, j :: 0 <= i < |cat| && 0 <= j < |cat[i].quotes| && x == Annotate(cat[i], cat[i].quotes[j])
  {
    if x in Entries(cat[0]) {
      var j :| 0 <= j < |cat[0].quotes| && Entries(cat[0])[j] == x;
      assert x == Annotate(cat[0], cat[0].quotes[j]);
    } else {
      AllQuotesSound(cat[1..], x);
      var i, j :| 0 <= i < |cat[1..]| && 0 <= j < |cat[1..][i].quotes| && x == Annotate(cat[1..][i], cat[1..][i].quotes[j]);
      assert cat[1..][i] == cat[i + 1];
    }
  }

  lemma {:induction false} FilterChapterAppend(a: seq<FlatQuote>, b: seq<FlatQuote>, c: ChapterId)
    ensures FilterChapter(a + b, c) == FilterChapter(a, c) + FilterChapter(b, c)
  {
    if |a| == 0 {
      assert a + b == b;
    } else {
      assert (a + b)[1..] == a[1..] + b;
      FilterChapterAppend(a[1..], b, c);
    }
  }

  /** Filtering one chapter's entries by id keeps all of them or none. */
  lemma {:induction false} FilterEntries(ch: Chapter, c: ChapterId)
    ensures FilterChapter(Entries(ch), c) == if ch.id == c then Entries(ch) else []
  {
    FilterAllOrNone(Entries(ch), ch.id, c);
  }

  lemma {:induction false} FilterAllOrNone(qs: seq<FlatQuote>, d: ChapterId, c: ChapterId)
    requires forall k :: 0 <= k < |qs| ==> qs[k].chapterId == d
    ensures FilterChapter(qs, c) == if d == c then qs else []
  {
    if |qs| > 0 {
      FilterAllOrNone(qs[1..], d, c);
      if d == c {
        assert [qs[0]] + qs[1..] == qs;
      }
    }
  }

  /** Filtering the flat list by chapter id equals flattening only the
      chapters carrying that id: the filter keeps catalog order. */
  lemma {:induction false} FilterFlattenCommute(cat: seq<Chapter>, c: ChapterId)
    ensures FilterChapter(AllQuotes(cat), c) == AllQuotes(ChaptersWithId(cat, c))
  {
    if |cat| > 0 {
      FilterChapterAppend(Entries(cat[0]), AllQuotes(cat[1..]), c);
      FilterEntries(cat[0], c);
      FilterFlattenCommute(cat[1..], c);
      if cat[0].id == c {
        AllQuotesAppend([cat[0]], ChaptersWithId(cat[1..], c));
        assert AllQuotes([cat[0]]) == Entries(cat[0]) by {
          assert [cat[0]][1..] == [];
        }
      }
    }
  }

  /** With unique chapter ids, the chapters carrying chapter i's id are just chapter i. */
  lemma {:induction false} ChaptersWithUniqueId(cat: seq<Chapter>, i: nat)
    requires UniqueIds(cat) && i < |cat|
    ensures ChaptersWithId(cat, cat[i].id) == [cat[i]]
  {
    if i == 0 {
      NoChapterWithId(cat[1..], cat[0].id);
    } else {
      assert UniqueIds(cat[1..]) by {
        forall a, b | 0 <= a < b < |cat[1..]| ensures cat[1..][a].id != cat[1..][b].id {
          assert cat[1..][a] == cat[a + 1] && cat[1..][b] == cat[b + 1];
        }
      }
      assert cat[0].id != cat[i].id;
      ChaptersWithUniqueId(cat[1..], i - 1);
    }
  }

  lemma {:induction false} NoChapterWithId(cat: seq<Chapter>, c: ChapterId)
    requires forall k :: 0 <= k < |cat| ==> cat[k].id != c
    ensures ChaptersWithId(cat, c) == []
  {
    if |cat| > 0 {
      NoChapterWithId(cat[1..], c);
    }
  }

}
