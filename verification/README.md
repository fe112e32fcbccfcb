# Hoppe quote flashcards: the navigator

The flashcard page shows a catalog of chapters, each with a list of quotes.
Its navigation logic sits in the `HoppeFlashcards` class of `script.js`. The
class keeps three fields over the read-only catalog:

- `activeChapterId`: an optional chapter filter;
- `filteredQuotes`: the view, which is the flattened catalog restricted to the filter;
- `currentIndex`: the selected position in the view.

Five commands change these fields: `showChapter`, `showSpecificQuote`,
`nextCard`, `prevCard` (which cross chapters through
`navigateToNextChapter` / `navigateToPrevChapter`) and `showRandomCard`.

The model is functional:

- The catalog is a `seq<Chapter>`.
- The state is `Nav(active, view, index)`.
- Each command is a pure function that returns a `Step`, meaning the new
  state and a `Status`.

`Status` stands for what the page would show instead of toasts and
`updateDisplay`:

- `Ok`: a card is rendered.
- `Empty`: the empty-state card, or the "no quotes" toast.
- `NoNextChapter` / `NoPrevChapter`: the boundary toasts.
- `Silent`: an early return that neither renders nor toasts.
- `RenderError`: `updateDisplay` reads `filteredQuotes[-1]` on a non-empty
  view and throws a `TypeError`.

Modules:

- `Options`: the optional filter value.
- `Catalog`: the data model, plus these operations:
  - flattening (`getAllQuotes`);
  - the chapter filter;
  - `findIndex`.
- `Navigator`: the state, the rebuild with its index clamp, and every command.
- `NavigatorInvariants`: covers the following:
  - the state invariant;
  - its preservation by every command, over any command sequence;
  - the chapter-crossing round trips;
  - the boundary policy.
- `Scenarios`: concrete walks through small catalogs.

Modelling decisions:

- Ids are strings. Chapter and quote ids reach the commands from DOM
  `data-*` attributes and are compared with `===`.
- The code tests `activeChapterId` for JavaScript truthiness (`if (this.activeChapterId)`).
  It is modelled as `Truthy`, where both `None` and `Some("")` are falsy. A
  falsy filter leaves the view unfiltered and stops the chapter crossing.
- `Math.floor(Math.random() * n)` is replaced by a parameter `r` with
  `0 <= r < n`. The parameter is unconstrained when the catalog has no quotes.
- `currentIndex` is an `int`. `navigateToPrevChapter` can set it to -1.

Behaviours of the code worth stating explicitly:

- `showChapter` does not reset the index to 0. The rebuild only clamps an index
  that is past the end, and an index of -1 is kept.
- `showSpecificQuote` returns without any change when the chapter is unknown.
  It also does so when the first chapter with that id has no quote with that id.
- Without a filter the view is the whole flattened list. `nextCard` therefore
  walks from one chapter's quotes into the next without setting a filter. At
  the end of the list it does nothing and reports nothing. It does not cross
  into a chapter or report "no further chapter" (`UnfilteredWalk`,
  `NextAtEndUnfiltered`).
- An empty chapter breaks the bounds invariant:
  1. Entering the empty chapter backwards sets the index to -1.
  2. Selecting a non-empty chapter afterwards keeps the -1.
  3. The next render then throws (`EmptyChapterBreaksRendering`).

  When every chapter has at least one quote, this cannot happen (`ApplyValid`, `BoundsFromInit`).
  View consistency survives empty chapters: for any catalog the view is the
  filtered catalog after every command (`ApplyConsistent`, `ConsistentFromInit`).

## Model

| member | source | states |
|---|---|---|
| Catalog.AllQuotes | script.js:64-77 | `getAllQuotes` yields exactly as many entries as the catalog has quotes |
| Catalog.AllQuotesAppend | script.js:64-77 | flattening a concatenation of chapter lists is the concatenation of their flattenings, so the flat list is each chapter's quotes laid end to end in catalog order |
| Catalog.AllQuotesComplete | script.js:64-77 | every quote of every chapter occurs in the flat list, annotated with its chapter's id, title and subtitle |
| Catalog.AllQuotesSound | script.js:64-77 | every entry of the flat list is some chapter's quote annotated with that same chapter |
| Catalog.FilterChapter | script.js:380 | the filter keeps exactly the entries whose chapter id equals the filter id and never grows the list |
| Catalog.FilterFlattenCommute | script.js:374-383 | filtering the flat list by a chapter id equals flattening only the chapters that carry that id, so catalog order is kept |
| Catalog.FindFirst | script.js:318 | `findIndex` returns -1 exactly when no element matches, and otherwise a matching position before which nothing matches |
| Catalog.ChapterPos | script.js:358 | the chapter lookup fails exactly when no chapter has the id, and otherwise gives the first chapter with it |
| Catalog.QuotePos | script.js:268 | the quote-id search in a view gives -1 exactly when the id is absent, and otherwise its first position |
| Catalog.QuoteInChapter | script.js:230-231 | the quote lookup in a chapter fails exactly when no quote of that chapter has the id |
| Navigator.ViewOf | script.js:376-381 | with a truthy filter the view holds exactly the flat entries of that chapter id, equal to flattening the matching chapters; with a falsy filter it is the whole flat list |
| Navigator.Init | script.js:52-57 | the loaded state has no filter, the unfiltered view of all quotes and index 0, and it renders a card unless the catalog has no quotes |
| Navigator.Current | script.js:397 | `filteredQuotes[currentIndex]` is undefined exactly when the index is negative or past the end, and otherwise is that view entry |
| Navigator.Display | script.js:391-401 | rendering shows a card exactly when the index is a position of the view, shows the empty state exactly when the view is empty, and otherwise fails |
| Navigator.Rebuild | script.js:374-389 | the rebuilt view matches the filter; an index below the new length is kept; an index past the end goes to the last position, or to 0 on an empty view; a non-negative index ends inside a non-empty view |
| Navigator.ShowChapter | script.js:357-371 | an unknown id changes nothing and is silent; a known id becomes the filter, the view is rebuilt, and the old index is kept unless it is past the end, in which case it goes to the last position (0 on an empty view, where the status is Empty); a non-negative index on a non-empty view renders (Ok), a kept negative index on a non-empty view fails to render (RenderError) |
| Navigator.ShowSpecificQuote | script.js:226-243 | an unknown chapter, or a quote id the chapter lacks, changes nothing; otherwise the chapter becomes the filter and the index is the first view position with that quote id; the fallback to 0 never fires |
| Navigator.ShowRandomCard | script.js:252-281 | an empty catalog changes nothing; otherwise the shown card has the drawn quote's id; the state is unchanged when the current card already has it; the filter is kept, with the index moved to the first match, when the id is in the view; otherwise the filter is cleared and the index is the id's first position in the full list |
| Navigator.NavigateToNextChapter | script.js:315-334 | with no truthy filter, or an unknown one, nothing happens silently; at the last chapter the state is unchanged and "no next chapter" is reported; otherwise the next chapter in catalog order becomes the filter with index 0, and the status is Empty exactly when that chapter's view is empty and Ok otherwise |
| Navigator.NavigateToPrevChapter | script.js:336-355 | with no truthy filter, or an unknown one, nothing happens silently; at the first chapter the state is unchanged and "no previous chapter" is reported; otherwise the previous chapter becomes the filter and the index is its view length minus one (-1 if empty), and the status is Empty exactly when that view is empty and Ok otherwise |
| Navigator.NextCard | script.js:283-297 | an empty view is left unchanged with an empty report; before the last position only the index changes, by +1, keeping filter and view; at the last position the next-chapter crossing decides |
| Navigator.PrevCard | script.js:299-313 | an empty view is left unchanged with an empty report; after the first position only the index changes, by -1, keeping filter and view; at position 0 the previous-chapter crossing decides |
| NavigatorInvariants.Apply | script.js:432-445 | the dispatch of keys, of the buttons at script.js lines 98-100 and of the chapter-header and quote-link clicks at lines 181 and 207: only a random draw clears a filter; silent and boundary outcomes leave the state unchanged; boundary reports come only from next and prev; a random draw reports Ok or Empty |
| NavigatorInvariants.InitValid | script.js:55-57 | the initial state (index 0 and no filter from the constructor at script.js lines 6 and 9, the full list from `loadData`) has no filter, the full flat list as view and index 0, and satisfies the state invariant |
| NavigatorInvariants.ApplyConsistent | script.js:374-383 | for any catalog, empty chapters included, every command leaves the view equal to the filtered catalog and the filter naming a chapter |
| NavigatorInvariants.RunConsistent | script.js:374-383 | view consistency holds after any command sequence from a consistent state, for any catalog |
| NavigatorInvariants.ConsistentFromInit | script.js:374-383 | from the initial state, after any commands and over any catalog, the view is the flattened catalog restricted to the current filter |
| NavigatorInvariants.ViewNonEmpty | script.js:376-381 | when every chapter has a quote, a filter naming a chapter, or no filter over a non-empty catalog, yields a non-empty view |
| NavigatorInvariants.ApplyValid | script.js:226-388 | when every chapter has a quote, each command keeps the view equal to the filtered catalog, keeps the filter naming a chapter, keeps the index in bounds, and never makes rendering fail |
| NavigatorInvariants.RunValid | script.js:226-388 | the state invariant holds after any sequence of commands started from a valid state |
| NavigatorInvariants.BoundsFromInit | script.js:386-388 | from the initial state, after any commands, the view is the filtered catalog and the index is a valid position (0 on an empty view), when every chapter holds a quote |
| NavigatorInvariants.ChapterView | script.js:378-381 | with unique chapter ids, filtering to a chapter gives exactly that chapter's annotated quotes in order |
| NavigatorInvariants.StepForwardBack | script.js:289-307 | inside a view, a next step followed by a previous step restores the state |
| NavigatorInvariants.StepBackForward | script.js:289-307 | inside a view, a previous step followed by a next step restores the state |
| NavigatorInvariants.CrossForwardBack | script.js:315-355 | in a well-formed catalog, next from the last card of chapter i enters chapter i+1 (exactly its quotes), and prev from there restores the state |
| NavigatorInvariants.CrossBackForward | script.js:336-347 | in a well-formed catalog, prev from the first card of chapter i+1 enters chapter i on its last card, and next from there restores the state |
| NavigatorInvariants.NextAtLastChapter | script.js:330-333 | at the last card of the last chapter, with that chapter as filter, next changes nothing and reports that no chapter follows |
| NavigatorInvariants.PrevAtFirstChapter | script.js:351-354 | at the first card of the first chapter, with that chapter as filter, prev changes nothing and reports that no chapter precedes |
| NavigatorInvariants.NextAtEndUnfiltered | script.js:315-316 | without a filter, next at the end of the whole list changes nothing and reports nothing |
| Scenarios.ForwardEntersAtFirstCard | script.js:322-326 | filtering to A=[a1,a2] and stepping twice reaches a2 and then b1, the first card of B |
| Scenarios.BackwardEntersAtLastCard | script.js:343-347 | jumping to b1 and stepping back reaches a2, the last card of A, not a1 |
| Scenarios.JumpSelectsQuote | script.js:234-243 | jumping to ("A", "a2") sets filter A, view [a1, a2] and index 1 |
| Scenarios.UnfilteredWalk | script.js:289-296 | with chapters Ch1=[q1,q2] and Ch2=[q3] and no filter, next walks q1, q2, q3 with no filter, and at q3 it is silent and changes nothing |
| Scenarios.EmptyChapterBreaksRendering | script.js:345-401 | with an empty chapter before a full one, prev into the empty chapter gives index -1, and selecting the full chapter keeps -1 on a non-empty view, so rendering fails |

## Left out

- DOM lookups, event wiring, the sidebar, the modal, loading visibility and
  the chapter navigation markup are presentation. This includes the
  20-character preview in `setupNavigation`.
- `updateDisplay`, `showEmptyState`, `updateActiveChapter`, `addCardAnimation`
  and `showToast` are rendering and timers. They appear only as the `Status`
  of each step. The `originalIndex` lookup in `updateDisplay` has no effect.
- `currentQuotes` is set once in `loadData` and read only by that dead lookup,
  so the state omits it.
- `handleKeyboard` maps arrow keys to `prevCard` / `nextCard` and Space or
  Enter to `showRandomCard`. It also maps Escape to `closeSidebar` and ignores
  keys typed into an INPUT element. The sidebar and the INPUT filter are
  presentation. `Command` and `Apply` stand in for the dispatch of the
  navigation keys, the buttons and the sidebar links.
- `init` and `loadData` are async, and their error handling belongs with
  them. The global error listeners and `module.exports` are plumbing. The
  catalog is a parameter, and it is always loaded, so the `!this.data` guards
  never fire.
- `Math.random` is nondeterministic and uses floating point. The draw is the
  parameter `r`, and uniformity is not modelled.
- Numeric chapter ids are not modelled. The catalog data file is not part of
  this model. If its ids were numbers, the `===` comparisons with DOM strings
  in `showChapter` and `showSpecificQuote` would never match.
