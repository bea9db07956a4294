/** The pixel arithmetic of the vertical work-experience carousel
    (src/components/VerticalWorkExperienceCarousel.tsx): where a scroll to a
    card ends, how a missing card is looked up again, which card the scroll
    position shows, and which card a settled scroll snaps to. DOM
    measurements are integer inputs; centres are halves, so positions
    derived from them are reals. */
module ScrollGeometry {
  import opened Wrappers

  /** The gap between two cards (`gap-1`) in pixels. */
  const Gap: nat := 4

  /** How many times a missing card is looked up again. */
  const MaxRetries: nat := 5

  /** Tolerances of the snap's "near the bottom" test, in pixels. */
  const AtBottomSlack: int := 1
  const LastCardSlack: int := 50
  const NearBottomSlack: int := 150

  /** The measurements of the scroll container and of its parent (the outer
      container) at one moment: the container's `scrollTop`, `clientHeight`
      and `scrollHeight`, and the outer container's bounding-rect top and
      bottom and its `clientHeight`. */
  datatype Viewport = Viewport(
    scrollTop: int, clientHeight: int, scrollHeight: int,
    outerTop: int, outerBottom: int, outerHeight: int)

  /** A rendered card: its bounding-rect top and height, and its layout
      height (`offsetHeight`). */
  datatype Card = Card(top: int, rectHeight: int, offsetHeight: nat)

  /** `Math.max(0, scrollHeight - clientHeight)`. */
  function MaxScroll(v: Viewport): (m: int)
    ensures m >= 0 && m >= v.scrollHeight - v.clientHeight
    ensures m == 0 || m == v.scrollHeight - v.clientHeight
  {
    if v.scrollHeight - v.clientHeight > 0 then v.scrollHeight - v.clientHeight else 0
  }

  /** `Math.max(0, Math.min(x, m))` for `m >= 0`. */
  function Clamp(x: real, m: int): (r: real)
    requires m >= 0
    ensures 0.0 <= r <= m as real
    ensures 0.0 <= x <= m as real ==> r == x
    ensures x < 0.0 ==> r == 0.0
    ensures x > m as real ==> r == m as real
  {
    if x < 0.0 then 0.0 else if x > m as real then m as real else x
  }

  /** The vertical centre of a box. */
  function Centre(top: int, height: int): real {
    top as real + height as real / 2.0
  }

  /** The outer container's vertical centre, the point cards are centred on. */
  function OuterCentre(v: Viewport): real {
    Centre(v.outerTop, v.outerHeight)
  }

  /** The scroll position `smoothScrollToIndex` aims at for card `index` of
      `n`: the first card at the top, the last at the bottom, any other card
      centred in the outer container, always clamped to the scroll range. */
  function IndexTarget(v: Viewport, n: nat, index: nat, card: Card): (r: real)
    requires index < n
    ensures 0.0 <= r <= MaxScroll(v) as real
    ensures index == 0 ==> r == 0.0
    ensures 0 < index && index == n - 1 ==> r == MaxScroll(v) as real
  {
    var m := MaxScroll(v);
    var raw :=
      if index == 0 then 0.0
      else if index == n - 1 then m as real
      else v.scrollTop as real + (Centre(card.top, card.offsetHeight) - OuterCentre(v));
    Clamp(raw, m)
  }

  /** Scrolling to a middle card's target puts the card's centre on the outer
      container's centre whenever that target is reachable. */
  lemma MiddleTargetCentres(v: Viewport, n: nat, index: nat, card: Card)
    requires 0 < index < n - 1
    requires var raw := v.scrollTop as real + (Centre(card.top, card.offsetHeight) - OuterCentre(v));
      0.0 <= raw <= MaxScroll(v) as real
    ensures var moved := IndexTarget(v, n, index, card) - v.scrollTop as real;
      Centre(card.top, card.offsetHeight) - moved == OuterCentre(v)
  {
  }

  /** A single card is the first card, so it goes to the top even when the
      container could scroll. */
  lemma SingleCardGoesToTop(v: Viewport, card: Card)
    ensures IndexTarget(v, 1, 0, card) == 0.0
  {
  }

  /** How the card lookup of `smoothScrollToIndex` ends. */
  datatype Lookup = Found(card: Card, attempt: nat) | GaveUp

  /** What `querySelector` answers on attempt `k`; attempts past the end of
      `answers` find nothing. */
  function Answer(answers: seq<Option<Card>>, k: nat): Option<Card> {
    if k < |answers| then answers[k] else None
  }

  /** `scrollToCard(retry)`: a lookup that finds nothing is repeated (after
      100 ms) while `retry < 5`, then abandoned without a scroll. */
  function Locate(answers: seq<Option<Card>>, retry: nat): (r: Lookup)
    requires retry <= MaxRetries
    ensures r.Found? ==> retry <= r.attempt <= MaxRetries && Answer(answers, r.attempt) == Some(r.card)
    ensures r.Found? ==> forall k :: retry <= k < r.attempt ==> Answer(answers, k).None?
    ensures r.GaveUp? <==> forall k :: retry <= k <= MaxRetries ==> Answer(answers, k).None?
    decreases MaxRetries - retry
  {
    match Answer(answers, retry)
    case Some(card) => Found(card, retry)
    case None => if retry < MaxRetries then Locate(answers, retry + 1) else GaveUp
  }

  /** What `smoothScrollToIndex(targetIndex)` does for `n` cards: an index
      outside `[0, n)` does nothing, otherwise the card is looked up (at most
      six times) and the container scrolls to its target. */
  datatype ScrollOutcome = OutOfRange | Abandoned | Scrolled(target: real)

  function IndexScroll(v: Viewport, n: nat, targetIndex: int, answers: seq<Option<Card>>): (r: ScrollOutcome)
    ensures r == OutOfRange <==> targetIndex < 0 || targetIndex >= n
    ensures r == Abandoned <==>
      (0 <= targetIndex < n && forall k :: 0 <= k <= MaxRetries ==> Answer(answers, k).None?)
    ensures r.Scrolled? ==> 0.0 <= r.target <= MaxScroll(v) as real
  {
    if targetIndex < 0 || targetIndex >= n then OutOfRange
    else match Locate(answers, 0)
      case GaveUp => Abandoned
      case Found(card, _) => Scrolled(IndexTarget(v, n, targetIndex, card))
  }

  /** The first card found is the one scrolled to, however many lookups it
      took. */
  lemma ScrollUsesFirstFound(v: Viewport, n: nat, index: nat, answers: seq<Option<Card>>, k: nat, card: Card)
    requires index < n && k <= MaxRetries
    requires Answer(answers, k) == Some(card)
    requires forall j :: 0 <= j < k ==> Answer(answers, j).None?
    ensures IndexScroll(v, n, index, answers) == Scrolled(IndexTarget(v, n, index, card))
  {
    var r := Locate(answers, 0);
    assert r.Found?;
  }

  /** A card that only appears on the seventh lookup is never scrolled to. */
  lemma SeventhLookupTooLate(v: Viewport, n: nat, index: nat, card: Card)
    requires index < n
    ensures IndexScroll(v, n, index, [None, None, None, None, None, None, Some(card)]) == Abandoned
  {
  }

  /** `Math.round(a / b)` for `b > 0`: the nearest integer, halves rounded up. */
  function Round(a: int, b: int): (q: int)
    requires b > 0
    ensures 2 * q * b - b <= 2 * a < 2 * q * b + b
  {
    var q := (2 * a + b) / (2 * b);
    assert 2 * a + b == q * (2 * b) + (2 * a + b) % (2 * b);
    q
  }

  /** The rounding is the unique integer within half a step. */
  lemma RoundUnique(a: int, b: int, k: int)
    requires b > 0
    requires 2 * k * b - b <= 2 * a < 2 * k * b + b
    ensures Round(a, b) == k
  {
    var q := Round(a, b);
    if q < k {
      assert (q + 1) * b <= k * b by {
        MulMono(q + 1, k, b);
      }
    } else if q > k {
      assert (k + 1) * b <= q * b by {
        MulMono(k + 1, q, b);
      }
    }
  }

  lemma MulMono(x: int, y: int, b: int)
    requires x <= y && b > 0
    ensures x * b <= y * b
  {
    assert y * b - x * b == (y - x) * b;
  }

  /** `updateVisualIndex`: the card nearest the top by rounded stride, with
      the stride the first card's height plus the gap, clamped to a card. */
  function VisualIndex(scrollTop: int, cardHeight: nat, n: nat): (r: nat)
    requires n > 0
    ensures r < n
    ensures var q := Round(scrollTop, cardHeight + Gap);
      (0 <= q < n ==> r == q) && (q < 0 ==> r == 0) && (q >= n ==> r == n - 1)
  {
    var q := Round(scrollTop, cardHeight + Gap);
    if q < 0 then 0 else if q > n - 1 then n - 1 else q
  }

  /** A scroll position exactly `k` strides down shows card `k`. */
  lemma VisualIndexAtStride(k: nat, cardHeight: nat, n: nat)
    requires k < n
    ensures VisualIndex(k * (cardHeight + Gap), cardHeight, n) == k
  {
    RoundUnique(k * (cardHeight + Gap), cardHeight + Gap, k);
  }

  /** The distance from a card's centre to the outer container's centre. */
  function Distance(c: Card, v: Viewport): (d: real)
    ensures d >= 0.0
    ensures d == Centre(c.top, c.rectHeight) - OuterCentre(v) || d == OuterCentre(v) - Centre(c.top, c.rectHeight)
  {
    var x := Centre(c.top, c.rectHeight) - OuterCentre(v);
    if x < 0.0 then -x else x
  }

  /** The snap's bottom test on the cards found by `querySelector` (index
      `i` is the answer for `data-card-index = i`): at the very bottom, the
      last card's bottom edge within 50 px below the outer container's
      bottom, or within 150 px of the bottom. */
  predicate NearBottom(v: Viewport, cards: seq<Option<Card>>)
    requires |cards| > 0
  {
    var m := MaxScroll(v);
    var last := cards[|cards| - 1];
    || v.scrollTop >= m - AtBottomSlack
    || (last.Some? && last.value.top + last.value.rectHeight <= v.outerBottom + LastCardSlack)
    || v.scrollTop >= m - NearBottomSlack
  }

  /** The 1 px test is subsumed by the 150 px one. */
  lemma AtBottomIsRedundant(v: Viewport, cards: seq<Option<Card>>)
    requires |cards| > 0
    ensures var last := cards[|cards| - 1];
      NearBottom(v, cards) <==>
        (last.Some? && last.value.top + last.value.rectHeight <= v.outerBottom + LastCardSlack)
        || v.scrollTop >= MaxScroll(v) - NearBottomSlack
  {
  }

  /** The nearest-centre scan over the first `k` cards: the chosen index and
      its distance, or no distance when none of them was found. A card
      replaces the best so far only when strictly nearer, so the lowest
      index wins a tie; with no card found the index stays 0. */
  function Scan(v: Viewport, cards: seq<Option<Card>>, k: nat): (r: (nat, Option<real>))
    requires k <= |cards|
    ensures r.1.None? <==> forall j :: 0 <= j < k ==> cards[j].None?
    ensures r.1.None? ==> r.0 == 0
    ensures r.1.Some? ==> r.0 < k && cards[r.0].Some? && r.1.value == Distance(cards[r.0].value, v)
    ensures r.1.Some? ==> forall j :: 0 <= j < k && cards[j].Some? ==> r.1.value <= Distance(cards[j].value, v)
    ensures r.1.Some? ==> forall j :: 0 <= j < r.0 && cards[j].Some? ==> r.1.value < Distance(cards[j].value, v)
  {
    if k == 0 then (0, None)
    else
      var prev := Scan(v, cards, k - 1);
      var c := cards[k - 1];
      if c.Some? && (prev.1.None? || Distance(c.value, v) < prev.1.value) then
        (k - 1, Some(Distance(c.value, v)))
      else prev
  }

  /** The card a settled scroll snaps to (`snapToNearestCard`). */
  function SnapIndex(v: Viewport, cards: seq<Option<Card>>): (r: nat)
    requires |cards| > 0
    ensures r < |cards|
    ensures NearBottom(v, cards) ==> r == |cards| - 1
  {
    if NearBottom(v, cards) then |cards| - 1 else Scan(v, cards, |cards|).0
  }

  /** Away from the bottom the snap picks a found card nearest the centre,
      the lowest such index on a tie, and card 0 when no card was found. */
  lemma SnapIsNearest(v: Viewport, cards: seq<Option<Card>>)
    requires |cards| > 0 && !NearBottom(v, cards)
    ensures var r := SnapIndex(v, cards);
      && ((forall j :: 0 <= j < |cards| ==> cards[j].None?) ==> r == 0)
      && ((exists j :: 0 <= j < |cards| && cards[j].Some?) ==>
            && cards[r].Some?
            && (forall j :: 0 <= j < |cards| && cards[j].Some? ==> Distance(cards[r].value, v) <= Distance(cards[j].value, v))
            && (forall j :: 0 <= j < r && cards[j].Some? ==> Distance(cards[r].value, v) < Distance(cards[j].value, v)))
  {
  }

  /** Where the snap scrolls once it has chosen card `index`: the last card
      to the bottom; any other card centred and clamped, if it was found. */
  function SnapTarget(v: Viewport, cards: seq<Option<Card>>, index: nat): (r: Option<real>)
    requires index < |cards|
    ensures index == |cards| - 1 ==> r == Some(MaxScroll(v) as real)
    ensures index < |cards| - 1 ==> (r.None? <==> cards[index].None?)
    ensures r.Some? ==> 0.0 <= r.value <= MaxScroll(v) as real
  {
    var m := MaxScroll(v);
    if index == |cards| - 1 then Some(m as real)
    else match cards[index]
      case None => None
      case Some(c) => Some(Clamp(v.scrollTop as real + (Centre(c.top, c.rectHeight) - OuterCentre(v)), m))
  }
}
