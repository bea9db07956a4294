# A Dafny model of the portfolio site's decision logic

The site is a React/Vite portfolio. Most of it renders markup. What this project models is the small set of pure decisions underneath that markup:

- **Page catalog** (`Pages`). The three-page catalog and its lookups: by id, by order, next, previous, order-of and total.
- **Work-experience dates** (`WorkDates`, `WorkSort`):
  - the start-date key parsed from a `"MM/DD/YY - ..."` date string, with its two-digit year pivot and its `20dd` fallback;
  - the stable, most-recent-first sort by that key.
- **Project ordering** (`ProjectOrder`). The block of `fetchProjects` that orders projects by an optional `index`:
  - projects are written into slots;
  - holes are filled with unindexed projects;
  - leftovers are appended;
  - remaining holes are dropped.
- **Horizontal carousel** (`CardWindow`). The three-card window: each card is active, previous, next or hidden, which fixes its classes, its visibility and its click gate.
- **Vertical carousel, geometry** (`ScrollGeometry`):
  - scroll targets;
  - the bounded card lookup;
  - the rounded visual index;
  - the near-bottom test;
  - the nearest-centre snap.
- **Vertical carousel, state** (`CarouselEngine`). The selection state as a state machine:
  - the programmatic-scroll flag, the debounce and the pending flag-reset timers;
  - the scroll, settle, active-id-changed, timer and re-measure events;
  - the distance-to-shade mapping.
- **Folder grid** (`FolderCards`). Each folder card's slide direction, its style phase (slide-out, slide-in, fade-out or resting) and its hover blur.
- **Project categories** (`ProjectCategory`). `getCategoryIcon`'s case-insensitive, priority-ordered substring match, returning a category instead of an icon.

Shared pieces:

- `Wrappers` holds `Option`.
- `Text` holds ASCII helpers: `trim`, `toLowerCase`, `includes` and `split(" - ")[0]`.
- `Experience` holds the `WorkExperience` record and `findIndex` by id.

Every operation is a pure function over immutable values. Timers, DOM measurements and the parent's callbacks are parameters, events or returned effects.

## Notes on behaviour

Each of these observations is proved as a lemma. None of them is treated as a defect:

- **Keys are not date order across formats** (`WorkDates.DecemberOutranksNextBareYear`). A `MM/DD/YY` key adds `month * 30 + day`, which can exceed 365. So "12/20/23" outranks a bare "2024".
- **Keys can collide** (`WorkDates.KeysCollide`). "1/31/23" and "2/1/23" get the same key.
- **Four-digit years skip the date pattern** (`WorkDates.FourDigitYearFallsBack`). "08/17/2023" does not match the `MM/DD/YY` pattern, so its month and day are ignored.
- **"blockchain" is never a blockchain project** (`ProjectCategory.BlockchainIsNeverWeb3`). It contains "ai", and the AI group is tested first.
- **Duplicate ids make the active card clickable** (`CardWindow.DuplicateIdActiveCardClicks`). When two records share an id, both count as active. The second is also the "next" card, so a click on it is forwarded.
- **The stale reset timer moves the indices back** (`CarouselEngine.StaleTimerRevertsIndex`). The active-id effect's timer re-checks against the values it captured. When the active id changes twice within its 1200 ms delay, the first timer moves the indices back to the first id's card. They stay there until the second timer fires.
- **The 1 px bottom test is redundant** (`ScrollGeometry.AtBottomIsRedundant`). The 150 px test subsumes it.
- **A folderless card is "selected" by an id-less folder** (`FolderCards.MissingIdsMatch`). Both ids are undefined, so they compare equal.

The settle debounce is 500 ms (`src/components/VerticalWorkExperienceCarousel.tsx` lines 431-436). The model's timers are unordered events, so no duration appears in it.

`updateActiveCard`'s item-height bottom test is never used. The snap uses the 1 px, 50 px and 150 px tests, and the model follows the snap.

## Model

| member | source | states |
|---|---|---|
| Pages.GetPageById | src/config/pages.ts:35-37 | finds a page exactly when some entry has the id, and the page found is the first entry with that id |
| Pages.GetPageByOrder | src/config/pages.ts:39-41 | finds a page exactly when some entry has the order, and the page found is the first entry with that order |
| Pages.GetNextPage | src/config/pages.ts:43-49 | a page is found exactly when the id is known and some entry has order `getPageOrder(id) + 1`, and the page found is such an entry |
| Pages.GetPreviousPage | src/config/pages.ts:51-57 | a page is found exactly when the id is known and some entry has order `getPageOrder(id) - 1`, and the page found is such an entry |
| Pages.GetPageOrder | src/config/pages.ts:59-62 | -1 for an id not in the catalog; otherwise the first matching entry's order; with non-negative orders, -1 exactly for unknown ids |
| Pages.TotalPagesCountsIds | src/config/pages.ts:64-66 | in a catalog with distinct ids, the total is the number of distinct ids |
| Pages.LookupsFindMember | src/config/pages.ts:35-41 | with distinct ids and orders, looking an entry up by its id or its order returns that very entry |
| Pages.NextThenPrevious | src/config/pages.ts:43-57 | with distinct ids and orders, the previous page of the next page is the starting page |
| Pages.PreviousThenNext | src/config/pages.ts:43-57 | with distinct ids and orders, the next page of the previous page is the starting page |
| Pages.EndsHaveNoNeighbour | src/config/pages.ts:43-57 | when the orders are exactly 0..n-1, the last page has no next and the first has no previous |
| Pages.PageConfigShape | src/config/pages.ts:13-32 | the application's catalog has distinct ids, orders 0, 1, 2, and three pages |
| Pages.PageConfigNavigation | src/config/pages.ts:13-62 | in the application's catalog, "work" has no next, "home" has no previous, both neighbours are "portfolio", and an unknown id has order -1 and no neighbours |
| Text.Trim | src/utils/workExperienceUtils.ts:10 | the result is a slice of the input, everything cut on either side is whitespace, and the result neither starts nor ends with whitespace |
| Text.Lower | src/components/ProjectsPage.tsx:11 | same length; each character lower-cased; no upper-case ASCII letter is left |
| Text.Contains | src/components/ProjectsPage.tsx:12 | true exactly when the keyword occurs at some offset |
| Text.BeforeFirst | src/utils/workExperienceUtils.ts:9 | the text before the first separator, or the whole string when there is none |
| WorkDates.StartPart | src/utils/workExperienceUtils.ts:9-10 | the start part is a slice of the date that ends at or before the first " - " (or the end), only whitespace is cut around it, and it has no whitespace at either end |
| WorkDates.StartPartOfRange | src/utils/workExperienceUtils.ts:9-10 | for a date `start + " - " + rest` where `start` holds no separator and is already trimmed, the start part is `start` |
| WorkDates.BlankStartIsZero | src/utils/workExperienceUtils.ts:9-12 | a date whose start is empty or only whitespace trims to nothing and keys as 0 |
| WorkDates.MatchDate | src/utils/workExperienceUtils.ts:15 | a match has 1–2 digit month and day and a 2-digit year, and the groups joined by slashes are the whole string |
| WorkDates.MatchDateComplete | src/utils/workExperienceUtils.ts:15 | every string of that shape is matched, with its own groups |
| WorkDates.FullYear | src/utils/workExperienceUtils.ts:19-27 | years 00..30 become 2000..2030, 31..99 become 1931..1999, and the last two digits are kept |
| WorkDates.StartDateValueOfDate | src/utils/workExperienceUtils.ts:9-31 | a date `M(M)/D(D)/YY - anything` keys as `fullYear * 365 + month * 30 + day` |
| WorkDates.YearThirtyIs2030 | src/utils/workExperienceUtils.ts:23-24 | "1/1/30" is read in 2030 |
| WorkDates.YearThirtyOneIs1931 | src/utils/workExperienceUtils.ts:25-27 | "1/1/31" is read in 1931 |
| WorkDates.LaterYearLargerKey | src/utils/workExperienceUtils.ts:29-31 | for months 1..12 and days 1..31, a later year always gives a strictly larger key |
| WorkDates.NoRangeCheck | src/utils/workExperienceUtils.ts:15-31 | month 13 and day 40 still parse and key as `2023 * 365 + 13 * 30 + 40` |
| WorkDates.KeysCollide | src/utils/workExperienceUtils.ts:31 | "1/31/23" and "2/1/23" get the same key |
| WorkDates.FindYearFrom | src/utils/workExperienceUtils.ts:35 | the leftmost position of a word-bounded `20dd`, or none when there is none |
| WorkDates.YearValueAt | src/utils/workExperienceUtils.ts:35-37 | the `parseInt` of the matched `20dd`: 2000 plus the value of its last two digits, so in 2000..2099 |
| WorkDates.YearFallback | src/utils/workExperienceUtils.ts:34-38 | for any trimmed start part before the first separator that is not a `MM/DD/YY` date, the key is its first word-bounded year times 365 |
| WorkDates.NoYearIsZero | src/utils/workExperienceUtils.ts:34-40 | for any trimmed start part before the first separator that is neither a date nor holds a word-bounded year, the key is 0 |
| WorkDates.MonthNameYearKey | src/utils/workExperienceUtils.ts:34-38 | "Aug 2023" keys as `2023 * 365` |
| WorkDates.FourDigitYearFallsBack | src/utils/workExperienceUtils.ts:34-38 | "08/17/2023" keys as `2023 * 365`, with its month and day ignored |
| WorkDates.StartDateValue | src/utils/workExperienceUtils.ts:6-41 | every key is 0 or at least the key of a day in 1931, and it is 0 exactly when the start part is neither a date nor holds a word-bounded year |
| WorkDates.YearOfSlashedFourDigitDate | src/utils/workExperienceUtils.ts:15-37 | "08/17/2023" fails the date pattern, and the fallback finds the year 2023 at offset 6 |
| WorkDates.LateDecemberKey | src/utils/workExperienceUtils.ts:29-31 | "12/20/23" keys as `2023 * 365 + 380` |
| WorkDates.BareYearKey | src/utils/workExperienceUtils.ts:34-38 | a bare "2024" keys as `2024 * 365` |
| WorkDates.DecemberOutranksNextBareYear | src/utils/workExperienceUtils.ts:29-38 | "12/20/23" gets a larger key than "2024" |
| WorkSort.SortDesc | src/utils/workExperienceUtils.ts:4 | for any key: same length, a permutation of the input, non-increasing in the key, and each key's elements in input order |
| WorkSort.SortByDate | src/utils/workExperienceUtils.ts:3-48 | a permutation of the input, most recent start first, with equal keys in input order |
| WorkSort.SortedSameKeyOrderEqual | src/utils/workExperienceUtils.ts:4 | two sorted sequences with the same per-key order are equal |
| WorkSort.SortUnique | src/utils/workExperienceUtils.ts:4 | any sorted sequence that keeps each key's entries in input order is exactly the result, so a stable sort can return nothing else |
| WorkSort.SortIdempotent | src/utils/workExperienceUtils.ts:4 | sorting a sorted result changes nothing |
| ProjectOrder.PlaceIsPlaced | src/hooks/useProjects.ts:21-29 | after the first loop: each slot holds the last project with that index, a slot is a hole exactly when no project has that index, and the array ends at the largest index |
| ProjectOrder.PlaceWithinIndexed | src/hooks/useProjects.ts:21-29 | the placed projects are a sub-multiset of the indexed projects |
| ProjectOrder.PlaceAllIndexed | src/hooks/useProjects.ts:21-29 | with distinct indices, the placed projects are exactly the indexed projects |
| ProjectOrder.LastWins | src/hooks/useProjects.ts:24 | every indexed project in the output is the last input project with its index |
| ProjectOrder.Fill | src/hooks/useProjects.ts:31-41 | filled slots keep their projects; the first holes, left to right, take the pool's projects in order; the unused pool is returned |
| ProjectOrder.OrderProjectsShape | src/hooks/useProjects.ts:16-49 | the output is the merged slots followed by the unused pool |
| ProjectOrder.OrderProjectsParts | src/hooks/useProjects.ts:21-49 | the indexed projects of the output are the placed projects in slot order, and the unindexed ones are the input's unindexed projects in input order |
| ProjectOrder.UnindexedKeepOrder | src/hooks/useProjects.ts:21-46 | unindexed projects keep their relative input order and none is lost |
| ProjectOrder.IndexedAscending | src/hooks/useProjects.ts:21-49 | indexed projects appear in strictly ascending index order |
| ProjectOrder.EveryIndexRepresented | src/hooks/useProjects.ts:21-49 | every index used by some input project is carried by some project of the output |
| ProjectOrder.PlacedIsLast | src/hooks/useProjects.ts:21-29 | every placed project has an index and is the last input project with that index |
| ProjectOrder.OrderProjectsWithinInput | src/hooks/useProjects.ts:16-49 | the output is a sub-multiset of the input and never longer |
| ProjectOrder.OrderProjectsPermutation | src/hooks/useProjects.ts:16-49 | with distinct indices, the output is a permutation of the input |
| ProjectOrder.EnoughFillersExactPositions | src/hooks/useProjects.ts:24-41 | with at least as many unindexed projects as holes, every surviving indexed project ends at exactly its index |
| ProjectOrder.FillExample | src/hooks/useProjects.ts:16-49 | one project with index 2 and three without give the order b, c, a, d |
| Experience.FindIndex | src/components/WorkExperienceCarousel.tsx:42 | the first position whose id is the active id, or -1 exactly when there is none |
| CardWindow.CardFlags | src/components/WorkExperienceCarousel.tsx:42-45 | active exactly when the ids match, previous exactly one before the active position, next exactly one after; with distinct ids the active card is neither previous nor next; with no match only card 0 is flagged, as next |
| CardWindow.RoleOf | src/components/WorkExperienceCarousel.tsx:53-73 | each card falls in exactly one branch, the first flag that holds deciding |
| CardWindow.StyleOf | src/components/WorkExperienceCarousel.tsx:53-73 | z-index 30 exactly for active, 20 for previous and next, 10 for hidden; opacity 0 exactly for hidden, 100 exactly for active |
| CardWindow.VisibleOf | src/components/WorkExperienceCarousel.tsx:46 | a card is visible exactly when it is not in the hidden branch |
| CardWindow.Click | src/components/WorkExperienceCarousel.tsx:88-92 | a click forwards the card's own id exactly for a previous or next card outside a transition; a forwarding card is always visible, and an active card that is no neighbour never forwards |
| CardWindow.ViewOf | src/components/WorkExperienceCarousel.tsx:41-95 | each view carries its record's id, is visible exactly when not hidden, and has its role's style |
| CardWindow.NullActiveIdMatchesNothing | src/components/WorkExperienceCarousel.tsx:42 | a null active id matches no record |
| Experience.FindIndexOfMember | src/components/WorkExperienceCarousel.tsx:42 | with distinct ids, looking up a record's id finds that record's position |
| CardWindow.Render | src/components/WorkExperienceCarousel.tsx:27-36 | the placeholder exactly for an empty list; otherwise one view per record, in order |
| CardWindow.VisibleIffNearActive | src/components/WorkExperienceCarousel.tsx:42-46 | with distinct ids, a card is active, previous or next exactly at the active position, one before it or one after it, and visible exactly within one position of it |
| CardWindow.AtMostThreeVisible | src/components/WorkExperienceCarousel.tsx:42-46 | with distinct ids, at most three cards are visible |
| CardWindow.ClickOnlyFromNeighbours | src/components/WorkExperienceCarousel.tsx:88-92 | with distinct ids, a click is forwarded exactly from the previous and next cards outside a transition |
| CardWindow.NoMatchFirstIsNext | src/components/WorkExperienceCarousel.tsx:42-46 | with no matching id, no card is active, and card 0 is the visible, clickable "next" card at 85% |
| CardWindow.DuplicateIdActiveCardClicks | src/components/WorkExperienceCarousel.tsx:43-92 | with two records sharing an id, both are active and a click on the second is forwarded |
| ScrollGeometry.MaxScroll | src/components/VerticalWorkExperienceCarousel.tsx:141 | the larger of 0 and `scrollHeight - clientHeight` |
| ScrollGeometry.Clamp | src/components/VerticalWorkExperienceCarousel.tsx:172 | the result lies in `[0, maxScroll]` and equals the input when the input already does |
| ScrollGeometry.IndexTarget | src/components/VerticalWorkExperienceCarousel.tsx:137-172 | always within `[0, maxScroll]`; 0 for the first card; `maxScroll` for the last card when it is not also the first |
| ScrollGeometry.MiddleTargetCentres | src/components/VerticalWorkExperienceCarousel.tsx:151-168 | for a middle card whose target is reachable, scrolling there puts its centre on the outer container's centre |
| ScrollGeometry.SingleCardGoesToTop | src/components/VerticalWorkExperienceCarousel.tsx:137-150 | a single card is treated as the first card and goes to the top |
| ScrollGeometry.Locate | src/components/VerticalWorkExperienceCarousel.tsx:109-118 | the card found is the first answer within the allowed attempts; it gives up exactly when all six attempts find nothing |
| ScrollGeometry.IndexScroll | src/components/VerticalWorkExperienceCarousel.tsx:103-189 | nothing happens exactly for an index outside `[0, n)`; it is abandoned exactly when no lookup finds the card; any target is within range |
| ScrollGeometry.ScrollUsesFirstFound | src/components/VerticalWorkExperienceCarousel.tsx:109-118 | the first card found is the one scrolled to |
| ScrollGeometry.SeventhLookupTooLate | src/components/VerticalWorkExperienceCarousel.tsx:109-118 | a card that only appears on the seventh lookup is never scrolled to |
| ScrollGeometry.Round | src/components/VerticalWorkExperienceCarousel.tsx:240 | the result is within half a step of the quotient |
| ScrollGeometry.RoundUnique | src/components/VerticalWorkExperienceCarousel.tsx:240 | the result is the only integer within half a step |
| ScrollGeometry.VisualIndex | src/components/VerticalWorkExperienceCarousel.tsx:235-244 | always a valid card index: the rounded stride quotient, clamped at both ends |
| ScrollGeometry.VisualIndexAtStride | src/components/VerticalWorkExperienceCarousel.tsx:235-244 | a scroll position exactly k strides down shows card k |
| ScrollGeometry.Distance | src/components/VerticalWorkExperienceCarousel.tsx:339-346 | the non-negative gap between the card's centre and the outer centre |
| ScrollGeometry.AtBottomIsRedundant | src/components/VerticalWorkExperienceCarousel.tsx:320-323 | the near-bottom test holds exactly when the 50 px or the 150 px test does |
| ScrollGeometry.Scan | src/components/VerticalWorkExperienceCarousel.tsx:325-352 | none exactly when no card was found; otherwise a found card with the least distance, and strictly less than every earlier found card |
| ScrollGeometry.SnapIndex | src/components/VerticalWorkExperienceCarousel.tsx:316-353 | a valid index, and the last card whenever the scroll is near the bottom |
| ScrollGeometry.SnapIsNearest | src/components/VerticalWorkExperienceCarousel.tsx:325-352 | away from the bottom: the found card nearest the centre, the lowest index on a tie, card 0 when none was found |
| ScrollGeometry.SnapTarget | src/components/VerticalWorkExperienceCarousel.tsx:368-397 | the last card goes to `maxScroll`; another card has a target exactly when it was found, and every target is within range |
| CarouselEngine.OnScroll | src/components/VerticalWorkExperienceCarousel.tsx:412-437 | never moves an index, the flag or the timers; outside programmatic scrolls it re-arms the debounce, and during them it changes nothing |
| CarouselEngine.Snap | src/components/VerticalWorkExperienceCarousel.tsx:294-408 | while the flag is set, or with no records, nothing changes and nothing is emitted |
| CarouselEngine.OnDebounce | src/components/VerticalWorkExperienceCarousel.tsx:431-436 | nothing without an armed debounce; with the flag set or no captured records, only the debounce is consumed; otherwise both indices move to the snap's card and the parent is notified exactly when that card is not the captured active one |
| CarouselEngine.OnActiveChanged | src/components/VerticalWorkExperienceCarousel.tsx:193-222 | a falsy id, an empty list or an unknown id changes nothing; a found id sets both indices to its first position, raises the flag, keeps the debounce and adds one reset timer capturing the records, the id and the old current index |
| CarouselEngine.OnReset | src/components/VerticalWorkExperienceCarousel.tsx:209-219 | a pending timer clears the flag and leaves the other timers and the debounce alone; a snap's timer keeps the indices; the active-id effect's timer moves both indices to the captured id's record when it is found away from the captured index, and keeps them otherwise; a timer that is not pending does nothing |
| CarouselEngine.OnMeasure | src/components/VerticalWorkExperienceCarousel.tsx:224-245 | only the visual index moves, to the clamped rounded stride index of the scroll position; without records or a first card nothing changes |
| CarouselEngine.MeasureAtStride | src/components/VerticalWorkExperienceCarousel.tsx:224-245 | scrolled exactly k card strides down, a re-measure shows card k |
| CarouselEngine.FlagBlocksScrollAndSnap | src/components/VerticalWorkExperienceCarousel.tsx:294-437 | while the flag is set, scroll and settle events move no index, emit nothing and keep the flag |
| CarouselEngine.SnapSelects | src/components/VerticalWorkExperienceCarousel.tsx:355-407 | a snap sets both indices to the chosen card and notifies the parent exactly when that card is not the active one; the flag is raised exactly when it notifies and the card has a scroll target, and a reset timer is added exactly when the flag is raised; the debounce is kept |
| CarouselEngine.SnapLastToBottom | src/components/VerticalWorkExperienceCarousel.tsx:368-374 | a snap to the last card scrolls to `maxScroll` |
| CarouselEngine.SnapNearBottomPicksLast | src/components/VerticalWorkExperienceCarousel.tsx:318-331 | a snap near the bottom picks the last card |
| CarouselEngine.ActiveChangedSyncs | src/components/VerticalWorkExperienceCarousel.tsx:193-218 | a found id sets both indices to its first position, raises the flag, scrolls there, keeps the debounce and adds exactly one reset timer capturing the records, the id and the old current index; otherwise nothing changes |
| CarouselEngine.StaleTimerRevertsIndex | src/components/VerticalWorkExperienceCarousel.tsx:209-219 | two quick active-id changes make the first reset timer move the indices back to the first card until the second timer fires |
| CarouselEngine.ScrollNeverMovesIndex | src/components/VerticalWorkExperienceCarousel.tsx:412-437 | a scroll event never moves an index and emits nothing |
| CarouselEngine.StepKeepsFlagWillClear | src/components/VerticalWorkExperienceCarousel.tsx:193-408 | every step keeps the invariant that a set flag has a pending timer to clear it |
| CarouselEngine.StepKeepsInRange | src/components/VerticalWorkExperienceCarousel.tsx:193-245 | every step keeps both indices within the records |
| CarouselEngine.ShadeOf | src/components/VerticalWorkExperienceCarousel.tsx:560-585 | no overlay exactly on the card at the active position; every other card gets a 30, 50 or 70 overlay |
| CarouselEngine.ShadeGrowsWithDistance | src/components/VerticalWorkExperienceCarousel.tsx:562-580 | a card farther from the active position is never lighter; distance 1 gives 30 and distance 2 gives 50 |
| CarouselEngine.NoActiveAllShaded | src/components/VerticalWorkExperienceCarousel.tsx:560-580 | with no active card found, every card is shaded and card 0 is the lightest |
| FolderCards.SlideDirection | src/components/ui/focus-cards.tsx:38-52 | column 0 goes left and column 2 goes right; column 1 goes up in the first row and down in every later row |
| FolderCards.Offscreen | src/components/ui/focus-cards.tsx:63-76 | every direction moves the card off the centre |
| FolderCards.OffscreenInjective | src/components/ui/focus-cards.tsx:63-100 | distinct directions give distinct transforms: left and right move along x, up and down along y |
| FolderCards.SlideOutStyle | src/components/ui/focus-cards.tsx:59-82 | a slide-out style exactly for a folder that is not selected while folders animate out |
| FolderCards.SlideInStyle | src/components/ui/focus-cards.tsx:84-117 | a slide-in style exactly while folders animate back in |
| FolderCards.FadeOutStyle | src/components/ui/focus-cards.tsx:119-148 | a fade-out style exactly for the selected folder while folders animate out |
| FolderCards.PhaseOf | src/components/ui/focus-cards.tsx:32-148 | the flags select exactly one phase: sliding in, sliding out, fading out or resting |
| FolderCards.OutAndInExclusive | src/components/ui/focus-cards.tsx:34-36 | a card is never animating out and in at once |
| FolderCards.SelectedNeverSlidesOut | src/components/ui/focus-cards.tsx:61-123 | the selected card never slides out, and an unselected card never fades out |
| FolderCards.Spread | src/components/ui/focus-cards.tsx:162-168 | spreading an empty style changes nothing, and spreading onto an empty style gives the spread style |
| FolderCards.CardStyleIsPhaseStyle | src/components/ui/focus-cards.tsx:162-168 | the spread of the style objects is exactly the style of the selected phase; no two styles mix |
| FolderCards.PhaseLooks | src/components/ui/focus-cards.tsx:59-167 | the leaving cards go off-screen at opacity 0; a returning card starts off-screen with no transition at opacity 0 and is otherwise centred at that opacity; a resting card shows the folders' opacity, or 1 |
| FolderCards.HoverOf | src/components/ui/focus-cards.tsx:160-182 | a blurred card implies some card is hovered and nothing animates, and a blurred card never shows its title |
| FolderCards.BlurOthersOnly | src/components/ui/focus-cards.tsx:160 | with a card hovered and no animation, exactly the other cards blur; otherwise none does |
| FolderCards.MissingIdsMatch | src/components/ui/focus-cards.tsx:32 | a card without a folder counts as selected when the selected folder has no id |
| ProjectCategory.AnyOf | src/components/ProjectsPage.tsx:12 | true exactly when some keyword of the group occurs |
| ProjectCategory.CategoryOf | src/components/ProjectsPage.tsx:10-23 | each category holds exactly when its group matches the lower-cased name and no earlier group does; the default holds exactly when no group matches |
| ProjectCategory.CaseInsensitive | src/components/ProjectsPage.tsx:11 | names equal up to ASCII case get the same category |
| ProjectCategory.LowerFirstChangesNothing | src/components/ProjectsPage.tsx:11 | lower-casing the name first changes nothing |
| ProjectCategory.BlockchainIsNeverWeb3 | src/components/ProjectsPage.tsx:14-19 | a name containing "blockchain" is a mobile or AI project, never a blockchain one |
| ProjectCategory.EmailToolIsAi | src/components/ProjectsPage.tsx:11-15 | "Email Tool" is an AI project |
| ProjectCategory.HtmlParserIsAi | src/components/ProjectsPage.tsx:11-15 | "HTML Parser" is an AI project |
| ProjectCategory.HappyPlaceIsMobile | src/components/ProjectsPage.tsx:11-13 | "Happy Place" is a mobile project |
| ProjectCategory.NoKeywordIsCode | src/components/ProjectsPage.tsx:12-21 | a name with no keyword is a code project |

## Left out

- Fetching, loading and error state are left out because they are I/O:
  - `src/hooks/useProjects.ts` lines 1-15 and 50-74;
  - the other data hooks;
  - the services;
  - the API configuration.
- DOM queries are parameters, namely bounding rects, `offsetHeight`, `clientHeight`, `scrollHeight` and `querySelector`. Measurements are integers. Null refs (`carouselRef`, the outer container) are not modelled: they only cause an early return.
- `smoothScrollTo` is represented only by its target. This covers its `requestAnimationFrame` loop, the floating-point `easeInOutCubic` and the Safari user-agent test.
- Timer durations (100 ms, 500 ms, 1200 ms) are left out. Timers are events that may fire in any order.
- `updateActiveCard` (`src/components/VerticalWorkExperienceCarousel.tsx` lines 247-292) is left out because it is defined but never called.
- The bottom-padding computation, the resize and wheel listeners, and the mobile/desktop class choices are left out because they are layout only.
- The vertical carousel's per-card `isActive`/`isPrevious`/`isNext` props are left out. They only feed `WorkExperienceCard`'s rendering, and all cards are shown there.
- `toLowerCase` is modelled on ASCII letters only. Unicode case mapping is not modelled.
- Project `index` is a natural number. Negative, fractional or non-numeric indices are not modelled, because `Project` in `src/services/projectApi.ts` declares no `index` field.
- The folder grid's hover setters, click handler and `FocusCards` wrapper are left out. Only the decisions they feed are modelled.
- Wheel/touch gesture classification and page-transition sequencing are left out because no source implements them. `src/types/pages.ts` only declares their types.
- CarouselEngine.StepKeepsInRange: proved only while the record list stays the same. A new, shorter list can leave the old indices out of range until the active-id effect runs.
- CarouselEngine.Snap: its own contract covers only the blocked case. `CarouselEngine.SnapSelects`, `SnapLastToBottom` and `SnapNearBottomPicksLast` state the rest.
