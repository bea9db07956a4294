/** The selection state of the vertical work-experience carousel
    (src/components/VerticalWorkExperienceCarousel.tsx) as a state machine.
    The state is the current and visual card indices, the programmatic-scroll
    flag, the scroll debounce and the flag-reset timers still pending; the
    events are the browser's scroll, the debounce expiring, the active id
    changing, a reset timer expiring, and a re-measure of the visual index.
    Every step returns the new state and what it asks of the outside world. */
module CarouselEngine {
  import opened Wrappers
  import opened Experience
  import opened ScrollGeometry

  /** A pending `setTimeout` that clears the flag. The active-id effect's
      timer also re-checks the index with the records, active id and current
      index it captured when it was set. */
  datatype Reset =
    | SnapReset
    | EffectReset(items: seq<WorkExperience>, activeId: Option<string>, staleIndex: int)

  /** The scroll debounce, when armed, holds what its callback captured. */
  datatype Debounce = Idle | Armed(items: seq<WorkExperience>, activeId: Option<string>)

  datatype State = State(
    currentIndex: int,
    visualIndex: int,
    programmatic: bool,
    debounce: Debounce,
    pending: seq<Reset>)

  /** What a step asks of the outside world. */
  datatype Effect =
    | Notify(id: string)        // onCardClick(id): the parent changes the active id
    | ScrollToIndex(index: nat) // smoothScrollToIndex(index)
    | ScrollTo(target: real)    // smoothScrollTo(container, target)

  datatype Event =
    | Scroll(items: seq<WorkExperience>, activeId: Option<string>)
    | DebounceFires(v: Viewport, cards: seq<Option<Card>>)
    | ActiveChanged(items: seq<WorkExperience>, activeId: Option<string>)
    | ResetFires(k: nat)
    | Measure(items: seq<WorkExperience>, scrollTop: int, firstCard: Option<nat>)

  /** The state on mount. */
  const Initial: State := State(0, 0, false, Idle, [])

  /** `handleScroll`: ignored while the flag is set; otherwise (re)starts the
      500 ms debounce, dropping the previous one. */
  function OnScroll(s: State, items: seq<WorkExperience>, activeId: Option<string>): (r: State)
    ensures s.programmatic ==> r == s
    ensures Indices(r) == Indices(s) && r.programmatic == s.programmatic && r.pending == s.pending
    ensures !s.programmatic ==> r.debounce == Armed(items, activeId)
  {
    if s.programmatic then s else s.(debounce := Armed(items, activeId))
  }

  /** `snapToNearestCard` on the records and active id it captured and the
      cards `querySelector` finds now (`cards[i]` for `data-card-index = i`). */
  function Snap(s: State, items: seq<WorkExperience>, activeId: Option<string>, v: Viewport, cards: seq<Option<Card>>):
    (r: (State, seq<Effect>))
    requires |cards| == |items|
    ensures s.programmatic || |items| == 0 ==> r == (s, [])
  {
    if s.programmatic || |items| == 0 then (s, [])
    else
      var index := SnapIndex(v, cards);
      var notify := activeId != Some(items[index].id);
      var chosen := s.(currentIndex := index, visualIndex := index, programmatic := notify || s.programmatic);
      var told: seq<Effect> := if notify then [Notify(items[index].id)] else [];
      match SnapTarget(v, cards, index)
      case None => (chosen.(programmatic := false), told)
      case Some(target) =>
        (chosen.(pending := if notify then s.pending + [SnapReset] else s.pending), told + [ScrollTo(target)])
  }

  /** The answers of `querySelector` for the indices `0..n`: an index past
      the end of `cards` finds nothing. */
  function CardsFor(cards: seq<Option<Card>>, n: nat): (r: seq<Option<Card>>)
    ensures |r| == n
    ensures forall i :: 0 <= i < n ==> r[i] == Answer(cards, i)
  {
    seq(n, i requires 0 <= i < n => Answer(cards, i))
  }

  /** The debounce callback: runs the snap with what it captured unless the
      flag was raised in the meantime. Without an armed debounce nothing
      happens. */
  function OnDebounce(s: State, v: Viewport, cards: seq<Option<Card>>): (r: (State, seq<Effect>))
    ensures s.debounce.Idle? ==> r == (s, [])
    ensures s.programmatic ==> r == (s.(debounce := Idle), [])
    ensures s.debounce.Armed? && |s.debounce.items| == 0 ==> r == (s.(debounce := Idle), [])
    ensures s.debounce.Armed? && !s.programmatic && |s.debounce.items| > 0 ==>
      var items, activeId := s.debounce.items, s.debounce.activeId;
      var index := SnapIndex(v, CardsFor(cards, |items|));
      && r.0.currentIndex == index && r.0.visualIndex == index && r.0.debounce == Idle
      && (Notify(items[index].id) in r.1 <==> activeId != Some(items[index].id))
  {
    match s.debounce
    case Idle => (s, [])
    case Armed(items, activeId) =>
      var t := s.(debounce := Idle);
      var cs := CardsFor(cards, |items|);
      if !s.programmatic && |items| > 0 then
        SnapSelects(t, items, activeId, v, cs);
        Snap(t, items, activeId, v, cs)
      else Snap(t, items, activeId, v, cs)
  }

  /** `!activeExperienceId`: null and the empty string are both falsy. */
  predicate Falsy(activeId: Option<string>) {
    activeId.None? || activeId == Some("")
  }

  /** The effect on `[activeExperienceId, workExperiences]`: a found id sets
      both indices and the flag, starts the scroll to its card and a 1200 ms
      reset timer; a falsy or unknown id, or no records, changes nothing. */
  function OnActiveChanged(s: State, items: seq<WorkExperience>, activeId: Option<string>): (r: (State, seq<Effect>))
    ensures Falsy(activeId) || |items| == 0 || FindIndex(items, activeId) == -1 ==> r == (s, [])
    ensures !Falsy(activeId) && FindIndex(items, activeId) != -1 ==>
      && r.0.currentIndex == r.0.visualIndex == FindIndex(items, activeId)
      && r.0.programmatic && r.0.debounce == s.debounce
      && r.0.pending == s.pending + [EffectReset(items, activeId, s.currentIndex)]
  {
    if Falsy(activeId) || |items| == 0 then (s, [])
    else
      var index := FindIndex(items, activeId);
      if index == -1 then (s, [])
      else
        (s.(currentIndex := index, visualIndex := index, programmatic := true,
            pending := s.pending + [EffectReset(items, activeId, s.currentIndex)]),
         [ScrollToIndex(index)])
  }

  /** A reset timer fires: the flag is cleared, and the active-id effect's
      timer moves both indices to the captured id's position when that is
      found and differs from the captured current index. A timer that is not
      pending does nothing. */
  function OnReset(s: State, k: nat): (r: State)
    ensures k >= |s.pending| ==> r == s
    ensures k < |s.pending| ==>
      (!r.programmatic && r.debounce == s.debounce && r.pending == s.pending[..k] + s.pending[k + 1..])
    ensures k < |s.pending| && s.pending[k].SnapReset? ==> Indices(r) == Indices(s)
    ensures k < |s.pending| && s.pending[k].EffectReset? ==>
      var e := s.pending[k];
      var found := FindIndex(e.items, e.activeId);
      && (found != -1 && found != e.staleIndex ==>
            Indices(r) == (found, found) && e.activeId == Some(e.items[found].id))
      && (found == -1 || found == e.staleIndex ==> Indices(r) == Indices(s))
  {
    if k >= |s.pending| then s
    else
      var t := s.(programmatic := false, pending := s.pending[..k] + s.pending[k + 1..]);
      match s.pending[k]
      case SnapReset => t
      case EffectReset(items, activeId, stale) =>
        var verify := FindIndex(items, activeId);
        if verify != -1 && verify != stale then t.(currentIndex := verify, visualIndex := verify) else t
  }

  /** `updateVisualIndex`: with records and a first card, the visual index
      follows the scroll position; the flag is not consulted. */
  function OnMeasure(s: State, items: seq<WorkExperience>, scrollTop: int, firstCard: Option<nat>): (r: State)
    ensures |items| == 0 || firstCard.None? ==> r == s
    ensures r.currentIndex == s.currentIndex && r.programmatic == s.programmatic
    ensures r.debounce == s.debounce && r.pending == s.pending
    ensures |items| > 0 && firstCard.Some? ==> 0 <= r.visualIndex < |items|
    ensures |items| > 0 && firstCard.Some? ==> r.visualIndex == VisualIndex(scrollTop, firstCard.value, |items|)
  {
    if |items| == 0 || firstCard.None? then s
    else s.(visualIndex := VisualIndex(scrollTop, firstCard.value, |items|))
  }

  /** A re-measure with the list scrolled exactly `k` card strides down
      shows card `k`. */
  lemma MeasureAtStride(s: State, items: seq<WorkExperience>, k: nat, cardHeight: nat)
    requires k < |items|
    ensures OnMeasure(s, items, k * (cardHeight + Gap), Some(cardHeight)).visualIndex == k
  {
    VisualIndexAtStride(k, cardHeight, |items|);
  }

  function Step(s: State, e: Event): (r: (State, seq<Effect>)) {
    match e
    case Scroll(items, activeId) => (OnScroll(s, items, activeId), [])
    case DebounceFires(v, cards) => OnDebounce(s, v, cards)
    case ActiveChanged(items, activeId) => OnActiveChanged(s, items, activeId)
    case ResetFires(k) => (OnReset(s, k), [])
    case Measure(items, scrollTop, firstCard) => (OnMeasure(s, items, scrollTop, firstCard), [])
  }

  /** The indices. */
  function Indices(s: State): (int, int) {
    (s.currentIndex, s.visualIndex)
  }

  /** While the flag is set, scrolling and the settled debounce change no
      index, emit nothing, and leave the flag set. */
  lemma FlagBlocksScrollAndSnap(s: State, e: Event)
    requires s.programmatic
    requires e.Scroll? || e.DebounceFires?
    ensures Indices(Step(s, e).0) == Indices(s)
    ensures Step(s, e).0.programmatic
    ensures Step(s, e).1 == []
  {
  }

  /** A snap chooses a card of the captured records, sets both indices to
      it, and tells the parent exactly when that card is not already the
      active one, raising the flag and pending a reset only then (or
      clearing it again when the chosen card cannot be found). */
  lemma SnapSelects(s: State, items: seq<WorkExperience>, activeId: Option<string>, v: Viewport, cards: seq<Option<Card>>)
    requires !s.programmatic && |items| > 0 && |cards| == |items|
    ensures var (t, out) := Snap(s, items, activeId, v, cards);
      var index := SnapIndex(v, cards);
      && t.currentIndex == t.visualIndex == index
      && 0 <= index < |items|
      && (Notify(items[index].id) in out <==> activeId != Some(items[index].id))
      && (forall e :: e in out && e.Notify? ==> e == Notify(items[index].id))
      && (t.programmatic <==> activeId != Some(items[index].id) && SnapTarget(v, cards, index).Some?)
      && (t.pending == s.pending + [SnapReset] <==> t.programmatic)
      && (!t.programmatic ==> t.pending == s.pending)
      && t.debounce == s.debounce
  {
  }

  /** A snap to the last card always scrolls to the bottom. */
  lemma SnapLastToBottom(s: State, items: seq<WorkExperience>, activeId: Option<string>, v: Viewport, cards: seq<Option<Card>>)
    requires !s.programmatic && |items| > 0 && |cards| == |items|
    requires SnapIndex(v, cards) == |items| - 1
    ensures ScrollTo(MaxScroll(v) as real) in Snap(s, items, activeId, v, cards).1
  {
  }

  /** A snap near the bottom picks the last card. */
  lemma SnapNearBottomPicksLast(s: State, items: seq<WorkExperience>, activeId: Option<string>, v: Viewport, cards: seq<Option<Card>>)
    requires !s.programmatic && |items| > 0 && |cards| == |items|
    requires NearBottom(v, cards)
    ensures Snap(s, items, activeId, v, cards).0.currentIndex == |items| - 1
  {
  }

  /** A found active id moves both indices to its first position, raises the
      flag, keeps the debounce and adds one reset timer that captures the
      records, the id and the old current index; otherwise the step changes
      nothing. */
  lemma ActiveChangedSyncs(s: State, items: seq<WorkExperience>, activeId: Option<string>)
    ensures var (t, out) := OnActiveChanged(s, items, activeId);
      var index := FindIndex(items, activeId);
      if !Falsy(activeId) && index != -1 then
        && t.currentIndex == t.visualIndex == index
        && 0 <= index < |items| && activeId == Some(items[index].id)
        && t.programmatic && out == [ScrollToIndex(index)]
        && t.debounce == s.debounce
        && t.pending == s.pending + [EffectReset(items, activeId, s.currentIndex)]
      else t == s && out == []
  {
  }

  /** The active-id effect's timer re-checks against the id and current
      index it captured. When the active id changes twice within its delay,
      the first timer moves the indices back to the first id's card while the
      second id is active, until the second timer moves them again. */
  lemma StaleTimerRevertsIndex(items: seq<WorkExperience>)
    requires |items| == 3 && DistinctIds(items)
    requires items[0].id != "" && items[2].id != ""
    ensures var first := Some(items[2].id);
      var second := Some(items[0].id);
      var s1 := OnActiveChanged(Initial, items, first).0;
      var s2 := OnActiveChanged(s1, items, second).0;
      var s3 := OnReset(s2, 0);
      var s4 := OnReset(s3, 0);
      && Indices(s2) == (0, 0)
      && Indices(s3) == (2, 2) && !s3.programmatic
      && Indices(s4) == (0, 0)
  {
    FindIndexOfMember(items, 0);
    FindIndexOfMember(items, 2);
  }

  /** Only the active-id effect, the effect's reset timer, a snap and a
      re-measure move an index; a scroll event never does. */
  lemma ScrollNeverMovesIndex(s: State, items: seq<WorkExperience>, activeId: Option<string>)
    ensures Indices(Step(s, Scroll(items, activeId)).0) == Indices(s)
    ensures Step(s, Scroll(items, activeId)).1 == []
  {
  }

  /** Whenever the flag is set, a reset timer that clears it is pending: the
      flag is never stuck. */
  ghost predicate FlagWillClear(s: State) {
    s.programmatic ==> |s.pending| > 0
  }

  lemma StepKeepsFlagWillClear(s: State, e: Event)
    requires FlagWillClear(s)
    ensures FlagWillClear(Step(s, e).0)
  {
    match e
    case ResetFires(k) =>
      if k < |s.pending| {
        assert !OnReset(s, k).programmatic;
      }
    case _ =>
  }

  /** The indices stay within the records whenever they were within them,
      as long as the record list does not change. */
  ghost predicate InRange(s: State, n: nat) {
    0 <= s.currentIndex < n && 0 <= s.visualIndex < n
  }

  lemma StepKeepsInRange(s: State, items: seq<WorkExperience>, e: Event)
    requires InRange(s, |items|)
    requires e.Scroll? ==> e.items == items
    requires e.DebounceFires? && s.debounce.Armed? ==> s.debounce.items == items
    requires e.ActiveChanged? ==> e.items == items
    requires e.Measure? ==> e.items == items
    requires forall k :: 0 <= k < |s.pending| && s.pending[k].EffectReset? ==> s.pending[k].items == items
    ensures InRange(Step(s, e).0, |items|)
  {
    match e
    case ResetFires(k) =>
      if k < |s.pending| && s.pending[k].EffectReset? {
        assert s.pending[k].items == items;
      }
    case _ =>
  }

  /** The overlay of a card in the vertical list: none on the card at the
      active position, otherwise darker with the distance from it. */
  datatype Shade = Solid | Overlay(percent: nat)

  function ShadeOf(items: seq<WorkExperience>, activeId: Option<string>, index: nat): (r: Shade)
    ensures r.Solid? <==> index == FindIndex(items, activeId)
    ensures r.Overlay? ==> r.percent in {30, 50, 70}
  {
    var activeIndex := FindIndex(items, activeId);
    if index == activeIndex then Solid
    else
      var distance := if index < activeIndex then activeIndex - index else index - activeIndex;
      Overlay(if distance == 1 then 30 else if distance == 2 then 50 else 70)
  }

  /** A card no nearer to the active position is never shaded lighter, and
      the two neighbours get 30, the next ones 50. */
  lemma ShadeGrowsWithDistance(items: seq<WorkExperience>, activeId: Option<string>, i: nat, j: nat)
    requires var a := FindIndex(items, activeId);
      i != a && j != a && Abs(i - a) <= Abs(j - a)
    ensures ShadeOf(items, activeId, i).percent <= ShadeOf(items, activeId, j).percent
    ensures Abs(i - FindIndex(items, activeId)) == 1 ==> ShadeOf(items, activeId, i) == Overlay(30)
    ensures Abs(i - FindIndex(items, activeId)) == 2 ==> ShadeOf(items, activeId, i) == Overlay(50)
  {
  }

  function Abs(x: int): (r: nat)
    ensures r == x || r == -x
  {
    if x < 0 then -x else x
  }

  /** With no active card found (position -1), every card is shaded and the
      first one, at distance 1, is the lightest. */
  lemma NoActiveAllShaded(items: seq<WorkExperience>, activeId: Option<string>)
    requires forall j :: 0 <= j < |items| ==> activeId != Some(items[j].id)
    ensures forall i: nat :: i < |items| ==> ShadeOf(items, activeId, i).Overlay?
    ensures |items| > 0 ==> ShadeOf(items, activeId, 0) == Overlay(30)
  {
  }
}
