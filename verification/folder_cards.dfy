/** The folder grid's per-card animation rules (`Card` in
    src/components/ui/focus-cards.tsx): which way a card slides given its
    place in the three-column grid, which of the slide-out, slide-in,
    fade-out or resting styles it gets given the animation flags, and when
    it is blurred because another card is hovered. */
module FolderCards {
  import opened Wrappers

  datatype Direction = Left | Right | Up | Down

  /** A CSS transform: a horizontal shift in `vw`, a vertical shift in `vh`,
      or `translateX(0) translateY(0)`. */
  datatype Transform = TranslateX(vw: int) | TranslateY(vh: int) | Centred

  /** The two transition strings: the one-second slide of every folder, and
      the selected folder's delayed fade followed by its slide. */
  datatype Transition = Slide | FadeThenSlide

  /** The style properties the rules set (besides the constant height);
      `None` is a property the object does not have. */
  datatype Style = Style(transform: Option<Transform>, opacity: Option<real>, transition: Option<Transition>)

  const NoStyle: Style := Style(None, None, None)

  /** The selected folder, as far as the comparison sees it: its `id`,
      possibly undefined. */
  datatype Folder = Folder(id: Option<string>)

  /** The props that decide a card's style: its folder's id (`card.folder?.id`,
      undefined when the card has no folder), the selected folder, the flags
      (undefined counts as false) and `foldersOpacity`. */
  datatype Props = Props(
    index: nat,
    folderId: Option<string>,
    selected: Option<Folder>,
    isAnimating: bool,
    goingBack: bool,
    foldersOpacity: Option<real>)

  predicate IsSelected(p: Props) {
    p.selected.Some? && p.folderId == p.selected.value.id
  }

  /** Folders are sliding away after a folder was opened. */
  predicate IsAnimatingOut(p: Props) {
    p.isAnimating && p.selected.Some? && p.foldersOpacity.Some? && p.foldersOpacity.value < 1.0 && !p.goingBack
  }

  /** Folders are coming back. */
  predicate IsAnimatingIn(p: Props) {
    p.isAnimating && p.goingBack && p.foldersOpacity.Some? && p.foldersOpacity.value >= 0.0
  }

  /** The grid has three columns; the top row is row 0 and every later row
      counts as the bottom row. */
  function SlideDirection(index: nat): (d: Direction)
    ensures index % 3 == 0 <==> d == Left
    ensures index % 3 == 2 <==> d == Right
    ensures d == Up <==> index % 3 == 1 && index < 3
    ensures d == Down <==> index % 3 == 1 && index >= 3
  {
    var row := index / 3;
    var col := index % 3;
    if row == 0 then
      (if col == 0 then Left else if col == 1 then Up else Right)
    else
      (if col == 0 then Left else if col == 1 then Down else Right)
  }

  /** The off-screen transform of a direction. */
  function Offscreen(d: Direction): (t: Transform)
    ensures t != Centred
  {
    match d
    case Left => TranslateX(-100)
    case Right => TranslateX(100)
    case Up => TranslateY(-100)
    case Down => TranslateY(100)
  }

  /** Different directions leave the screen differently: horizontal
      directions move along x, vertical ones along y, each to its own side. */
  lemma OffscreenInjective(d: Direction, e: Direction)
    ensures Offscreen(d) == Offscreen(e) <==> d == e
    ensures Offscreen(d).TranslateX? <==> d == Left || d == Right
    ensures Offscreen(d) == TranslateX(-100) <==> d == Left
    ensures Offscreen(d) == TranslateY(100) <==> d == Down
  {
  }

  /** The slide-out style of a folder that is not the selected one. */
  function SlideOutStyle(p: Props): (s: Style)
    ensures s != NoStyle <==> !IsSelected(p) && IsAnimatingOut(p)
  {
    if !IsSelected(p) && IsAnimatingOut(p) then
      Style(Some(Offscreen(SlideDirection(p.index))), Some(0.0), Some(Slide))
    else NoStyle
  }

  /** The slide-in style: from off-screen without a transition while the
      opacity is still 0, otherwise to the centre at that opacity. A card
      comes back from the side it left by. */
  function SlideInStyle(p: Props): (s: Style)
    ensures s != NoStyle <==> IsAnimatingIn(p)
  {
    if IsAnimatingIn(p) && p.foldersOpacity.Some? then
      if p.foldersOpacity.value == 0.0 then
        Style(Some(Offscreen(SlideDirection(p.index))), Some(0.0), None)
      else
        Style(Some(Centred), p.foldersOpacity, Some(Slide))
    else NoStyle
  }

  /** The selected folder's fade-out, when going forward only. */
  function FadeOutStyle(p: Props): (s: Style)
    ensures s != NoStyle <==> IsSelected(p) && IsAnimatingOut(p)
  {
    if IsSelected(p) && IsAnimatingOut(p) && p.selected.Some? && !IsAnimatingIn(p) && !p.goingBack then
      Style(Some(Offscreen(SlideDirection(p.index))), Some(0.0), Some(FadeThenSlide))
    else NoStyle
  }

  /** `foldersOpacity ?? 1`. */
  function DefaultOpacity(p: Props): real {
    if p.foldersOpacity.Some? then p.foldersOpacity.value else 1.0
  }

  /** An object spread `{...a, ...b}`: every property `b` has wins. */
  function Spread(a: Style, b: Style): (r: Style)
    ensures b == NoStyle ==> r == a
    ensures a == NoStyle ==> r == b
  {
    Style(
      if b.transform.Some? then b.transform else a.transform,
      if b.opacity.Some? then b.opacity else a.opacity,
      if b.transition.Some? then b.transition else a.transition)
  }

  /** The `style` object as the component writes it: slide-in, slide-out and
      fade-out spread in that order, then the resting opacity when all three
      are empty. */
  function CardStyle(p: Props): Style {
    var slideIn := SlideInStyle(p);
    var slideOut := SlideOutStyle(p);
    var fadeOut := FadeOutStyle(p);
    var resting :=
      if slideIn == NoStyle && slideOut == NoStyle && fadeOut == NoStyle
      then Style(None, Some(DefaultOpacity(p)), None)
      else NoStyle;
    Spread(Spread(Spread(Spread(NoStyle, slideIn), slideOut), fadeOut), resting)
  }

  /** Which style applies. */
  datatype Phase = SlidingIn | SlidingOut | FadingOut | Resting

  /** The case analysis the spread amounts to: the flags select exactly one
      phase. */
  function PhaseOf(p: Props): (ph: Phase)
    ensures ph == SlidingIn <==> IsAnimatingIn(p)
    ensures ph == SlidingOut <==> !IsSelected(p) && IsAnimatingOut(p)
    ensures ph == FadingOut <==> IsSelected(p) && IsAnimatingOut(p)
    ensures ph == Resting <==> !IsAnimatingIn(p) && !IsAnimatingOut(p)
  {
    if IsAnimatingIn(p) then SlidingIn
    else if IsAnimatingOut(p) then (if IsSelected(p) then FadingOut else SlidingOut)
    else Resting
  }

  /** A folder is never animating out and in at once. */
  lemma OutAndInExclusive(p: Props)
    ensures !(IsAnimatingOut(p) && IsAnimatingIn(p))
  {
  }

  /** The selected folder never slides out with the others, and a folder
      that is not selected never fades out. */
  lemma SelectedNeverSlidesOut(p: Props)
    ensures IsSelected(p) ==> SlideOutStyle(p) == NoStyle
    ensures !IsSelected(p) ==> FadeOutStyle(p) == NoStyle
  {
  }

  /** The spread of the three animation styles and the resting opacity is
      the one style of the selected phase: no two of them ever mix. */
  lemma CardStyleIsPhaseStyle(p: Props)
    ensures var s := CardStyle(p);
      match PhaseOf(p)
      case SlidingIn => s == SlideInStyle(p)
      case SlidingOut => s == SlideOutStyle(p)
      case FadingOut => s == FadeOutStyle(p)
      case Resting => s == Style(None, Some(DefaultOpacity(p)), None)
  {
  }

  /** What each phase looks like: the sliding and fading folders leave in
      their direction at opacity 0; a folder coming back starts off-screen,
      invisible and without a transition while the opacity is 0, and is
      otherwise centred at that opacity; a resting folder shows the folders'
      opacity, or 1 without one. */
  lemma PhaseLooks(p: Props)
    ensures var s := CardStyle(p);
      var d := SlideDirection(p.index);
      && (PhaseOf(p) == SlidingOut ==> s == Style(Some(Offscreen(d)), Some(0.0), Some(Slide)))
      && (PhaseOf(p) == FadingOut ==> s == Style(Some(Offscreen(d)), Some(0.0), Some(FadeThenSlide)))
      && (PhaseOf(p) == SlidingIn && p.foldersOpacity == Some(0.0) ==> s == Style(Some(Offscreen(d)), Some(0.0), None))
      && (PhaseOf(p) == SlidingIn && p.foldersOpacity != Some(0.0) ==> s == Style(Some(Centred), p.foldersOpacity, Some(Slide)))
      && (PhaseOf(p) == Resting ==> s.opacity == Some(if p.foldersOpacity.Some? then p.foldersOpacity.value else 1.0))
  {
    CardStyleIsPhaseStyle(p);
  }

  /** A card is blurred when some other card is hovered and no animation
      runs; its title shows when it is itself hovered. */
  datatype Hover = Hover(blurred: bool, titleShown: bool)

  function HoverOf(index: nat, hovered: Option<int>, isAnimating: bool): (h: Hover)
    ensures h.blurred ==> hovered.Some? && !isAnimating
    ensures h.blurred && h.titleShown ==> false
  {
    Hover(hovered.Some? && hovered.value != index && !isAnimating, hovered == Some(index))
  }

  /** With nothing hovered, or while animating, no card is blurred; with
      card `i` hovered and no animation, every other card is. */
  lemma BlurOthersOnly(hovered: Option<int>, isAnimating: bool, index: nat)
    ensures hovered.None? || isAnimating ==> !HoverOf(index, hovered, isAnimating).blurred
    ensures hovered.Some? && !isAnimating ==>
      (HoverOf(index, hovered, isAnimating).blurred <==> hovered.value != index)
  {
  }

  /** A card without a folder matches a selected folder that has no id,
      because both ids are undefined. */
  lemma MissingIdsMatch(index: nat, isAnimating: bool, goingBack: bool, fo: Option<real>)
    ensures IsSelected(Props(index, None, Some(Folder(None)), isAnimating, goingBack, fo))
  {
  }
}
