/** The three-card window of the horizontal work-experience carousel
    (src/components/WorkExperienceCarousel.tsx): every card is classified
    against the active card's position as active, previous, next or hidden,
    which fixes its style, its visibility and whether a click on it is
    forwarded to the parent. */
module CardWindow {
  import opened Wrappers
  import opened Experience

  /** The four branches of the per-card if/else chain. */
  datatype Role = Active | Previous | Next | Hidden

  /** The three independent flags the card computes before the chain:
      `isActive` compares ids, `isPrevious` and `isNext` compare positions. */
  datatype Flags = Flags(isActive: bool, isPrevious: bool, isNext: bool)

  /** Where the card sits vertically: the middle, 15% or 85% of the height. */
  datatype Position = Middle | Top15 | Top85

  /** The Tailwind classes of one branch, as numbers: opacity and scale in
      percent, and the z-index. */
  datatype Style = Style(position: Position, opacity: nat, scale: nat, zIndex: nat)

  /** What the carousel renders for one card. */
  datatype CardView = CardView(id: string, role: Role, visible: bool, style: Style)

  /** The empty list shows a placeholder; otherwise one view per record. */
  datatype Rendered = Placeholder | Cards(views: seq<CardView>)

  /** The flags of card `index`, against the first record whose id is the
      active id (position -1 when none is). */
  function CardFlags(items: seq<WorkExperience>, activeId: Option<string>, index: nat): (f: Flags)
    requires index < |items|
    ensures f.isActive <==> activeId == Some(items[index].id)
    ensures f.isPrevious <==> index + 1 == FindIndex(items, activeId)
    ensures f.isNext <==> index == FindIndex(items, activeId) + 1
    ensures DistinctIds(items) ==> !(f.isActive && f.isPrevious) && !(f.isActive && f.isNext)
    ensures FindIndex(items, activeId) == -1 ==> !f.isActive && !f.isPrevious && (f.isNext <==> index == 0)
  {
    var activeIndex := FindIndex(items, activeId);
    Flags(activeId == Some(items[index].id), index == activeIndex - 1, index == activeIndex + 1)
  }

  /** The if/else chain: the first flag that holds decides. */
  function RoleOf(f: Flags): (r: Role)
    ensures r == Active <==> f.isActive
    ensures r == Previous <==> !f.isActive && f.isPrevious
    ensures r == Next <==> !f.isActive && !f.isPrevious && f.isNext
    ensures r == Hidden <==> !f.isActive && !f.isPrevious && !f.isNext
  {
    if f.isActive then Active
    else if f.isPrevious then Previous
    else if f.isNext then Next
    else Hidden
  }

  /** The classes each branch assigns. */
  function StyleOf(r: Role): (s: Style)
    ensures s.zIndex == 30 <==> r == Active
    ensures s.zIndex == 20 <==> r == Previous || r == Next
    ensures s.zIndex == 10 <==> r == Hidden
    ensures s.opacity == 0 <==> r == Hidden
    ensures s.opacity == 100 <==> r == Active
  {
    match r
    case Active => Style(Middle, 100, 100, 30)
    case Previous => Style(Top15, 30, 90, 20)
    case Next => Style(Top85, 30, 90, 20)
    case Hidden => Style(Middle, 0, 95, 10)
  }

  /** `isVisible = isActive || isPrevious || isNext`. */
  function VisibleOf(f: Flags): (b: bool)
    ensures b <==> RoleOf(f) != Hidden
  {
    f.isActive || f.isPrevious || f.isNext
  }

  /** The card's click handler: the id goes to the parent only from a
      previous or next card, and only while no transition runs. */
  function Click(f: Flags, id: string, isTransitioning: bool): (r: Option<string>)
    ensures r.Some? ==> r == Some(id)
    ensures r.Some? <==> (f.isPrevious || f.isNext) && !isTransitioning
    ensures r.Some? ==> VisibleOf(f) && RoleOf(f) != Hidden
    ensures RoleOf(f) == Active && !f.isPrevious && !f.isNext ==> r.None?
  {
    if (f.isPrevious || f.isNext) && !isTransitioning then Some(id) else None
  }

  /** One card's view. */
  function ViewOf(items: seq<WorkExperience>, activeId: Option<string>, index: nat): (v: CardView)
    requires index < |items|
    ensures v.id == items[index].id
    ensures v.visible <==> v.role != Hidden
    ensures v.style == StyleOf(v.role)
  {
    var f := CardFlags(items, activeId, index);
    CardView(items[index].id, RoleOf(f), VisibleOf(f), StyleOf(RoleOf(f)))
  }

  /** The whole carousel. */
  function Render(items: seq<WorkExperience>, activeId: Option<string>): (r: Rendered)
    ensures r == Placeholder <==> |items| == 0
    ensures r.Cards? ==> |r.views| == |items|
    ensures r.Cards? ==> forall i :: 0 <= i < |items| ==> r.views[i] == ViewOf(items, activeId, i)
  {
    if |items| == 0 then Placeholder
    else Cards(seq(|items|, i requires 0 <= i < |items| => ViewOf(items, activeId, i)))
  }

  /** With distinct ids the active card is the one at the active position,
      and a card is visible exactly when it is within one position of it. */
  lemma VisibleIffNearActive(items: seq<WorkExperience>, activeId: Option<string>, index: nat)
    requires DistinctIds(items)
    requires index < |items|
    ensures var a := FindIndex(items, activeId);
      && (ViewOf(items, activeId, index).role == Active <==> index == a)
      && (ViewOf(items, activeId, index).role == Previous <==> index + 1 == a)
      && (ViewOf(items, activeId, index).role == Next <==> index == a + 1)
      && (ViewOf(items, activeId, index).visible <==> a - 1 <= index <= a + 1)
  {
    if activeId == Some(items[index].id) {
      FindIndexOfMember(items, index);
    }
  }

  /** With distinct ids at most three cards are visible. */
  lemma AtMostThreeVisible(items: seq<WorkExperience>, activeId: Option<string>)
    requires DistinctIds(items)
    ensures var visible := set i | 0 <= i < |items| && ViewOf(items, activeId, i).visible;
      |visible| <= 3
  {
    var a := FindIndex(items, activeId);
    var visible := set i | 0 <= i < |items| && ViewOf(items, activeId, i).visible;
    forall i | i in visible ensures i in {a - 1, a, a + 1} {
      VisibleIffNearActive(items, activeId, i);
    }
    assert visible <= {a - 1, a, a + 1};
    SubsetCard(visible, {a - 1, a, a + 1});
  }

  /** A subset of a set of ids is no larger than the set. */
  lemma SubsetCard(s: set<int>, t: set<int>)
    requires s <= t
    ensures |s| <= |t|
  {
    assert t == s + (t - s);
  }

  /** With distinct ids a click is forwarded exactly from the previous and
      next cards while no transition runs: the active and hidden cards do
      nothing. */
  lemma ClickOnlyFromNeighbours(items: seq<WorkExperience>, activeId: Option<string>, index: nat, isTransitioning: bool)
    requires DistinctIds(items)
    requires index < |items|
    ensures var v := ViewOf(items, activeId, index);
      (Click(CardFlags(items, activeId, index), items[index].id, isTransitioning).Some?
       <==> (v.role == Previous || v.role == Next) && !isTransitioning)
  {
    VisibleIffNearActive(items, activeId, index);
  }

  /** When no record has the active id, no card is active and the first card
      is the "next" one: visible, at 85%, and clickable outside transitions. */
  lemma NoMatchFirstIsNext(items: seq<WorkExperience>, activeId: Option<string>, isTransitioning: bool)
    requires |items| > 0
    requires forall j :: 0 <= j < |items| ==> activeId != Some(items[j].id)
    ensures forall i :: 0 <= i < |items| ==> ViewOf(items, activeId, i).role != Active
    ensures ViewOf(items, activeId, 0).role == Next && ViewOf(items, activeId, 0).visible
    ensures ViewOf(items, activeId, 0).style.position == Top85
    ensures Click(CardFlags(items, activeId, 0), items[0].id, isTransitioning) == (if isTransitioning then None else Some(items[0].id))
  {
  }

  /** A `null` active id matches nothing, so it is the no-match case. */
  lemma NullActiveIdMatchesNothing(items: seq<WorkExperience>)
    ensures FindIndex(items, None) == -1
  {
  }

  /** Two records may share an id. Both then count as active, and the second
      is also the "next" card, so its click is forwarded although it is
      rendered as active. */
  lemma DuplicateIdActiveCardClicks(a: WorkExperience, b: WorkExperience)
    requires a.id == b.id
    ensures ViewOf([a, b], Some(a.id), 0).role == Active
    ensures ViewOf([a, b], Some(a.id), 1).role == Active
    ensures Click(CardFlags([a, b], Some(a.id), 1), b.id, false) == Some(b.id)
  {
  }
}
