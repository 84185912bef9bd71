/**
 * The health-tip carousel: a cyclic index over the four tips, moved by the
 * arrow buttons, the dots and a five-second auto-advance timer, and the
 * audio button's playing flag. Timers become explicit events.
 */
module Carousel {
  import JsMath

  /** The tip titles; their number is the length of the cycle. */
  const HealthTips: seq<string> := ["Stay Hydrated", "Regular Exercise", "Adequate Sleep", "Vitamin D"]

  /** `healthTips.length`. */
  const TipCount: int := |HealthTips|

  /**
   * `nextTip`: `(prev + 1) % healthTips.length` with JavaScript's
   * truncating remainder. From any non-negative index it lands on the next
   * tip around the cycle.
   */
  function NextTip(i: int): (r: int)
    ensures 0 <= i ==> 0 <= r < TipCount && r == (i + 1) % TipCount
    ensures -TipCount < r < TipCount
  {
    JsMath.Rem(i + 1, TipCount)
  }

  /**
   * `prevTip`: `(prev - 1 + healthTips.length) % healthTips.length` with
   * JavaScript's truncating remainder. From any index that is not below 1 -
   * `healthTips.length` it lands on the previous tip around the cycle.
   */
  function PrevTip(i: int): (r: int)
    ensures 1 - TipCount <= i ==> 0 <= r < TipCount && r == (i - 1 + TipCount) % TipCount
    ensures -TipCount < r < TipCount
  {
    JsMath.Rem(i - 1 + TipCount, TipCount)
  }

  /** From a valid index both arrows give a valid index: one step forward or back, wrapping at the ends. */
  lemma ArrowsStayInRange(i: int)
    requires 0 <= i < TipCount
    ensures 0 <= NextTip(i) < TipCount && 0 <= PrevTip(i) < TipCount
    ensures NextTip(i) == (if i == TipCount - 1 then 0 else i + 1)
    ensures PrevTip(i) == (if i == 0 then TipCount - 1 else i - 1)
  {
  }

  /** "Previous" undoes "next". */
  lemma PrevUndoesNext(i: int)
    requires 0 <= i < TipCount
    ensures PrevTip(NextTip(i)) == i
  {
  }

  /** "Next" undoes "previous". */
  lemma NextUndoesPrev(i: int)
    requires 0 <= i < TipCount
    ensures NextTip(PrevTip(i)) == i
  {
  }

  /** The index after pressing "next" `n` times. */
  function NextTimes(i: int, n: nat): int
    decreases n
  {
    if n == 0 then i else NextTip(NextTimes(i, n - 1))
  }

  /** "Next" from the residue of `a` lands on the residue of `a + 1`. */
  lemma NextTipCounts(a: nat)
    ensures NextTip(a % TipCount) == (a + 1) % TipCount
  {
    assert TipCount == 4;
    assert ((a % 4) + 1) % 4 == (a + 1) % 4;
  }

  /** Pressing "next" `n` times moves `n` tips forward around the cycle. */
  lemma {:induction false} NextTimesAdvances(i: int, n: nat)
    requires 0 <= i < TipCount
    ensures NextTimes(i, n) == (i + n) % TipCount
    decreases n
  {
    if n > 0 {
      NextTimesAdvances(i, n - 1);
      NextTipCounts(i + n - 1);
    }
  }

  /** Four presses of "next" come back to the starting tip. */
  lemma NextFourTimesIsIdentity(i: int)
    requires 0 <= i < TipCount
    ensures NextTimes(i, TipCount) == i
  {
    NextTimesAdvances(i, TipCount);
  }

  /** The carousel's state: which tip shows and whether its audio is playing. */
  datatype Carousel = Carousel(current: int, playing: bool)

  /** The carousel as first rendered. */
  const InitialCarousel := Carousel(0, false)

  /** Everything that changes the carousel: the arrows, a dot, the auto-advance timer, the audio button and its timeout. */
  datatype CarouselEvent = Next | Prev | AutoAdvance | Dot(index: int) | PlayAudio | AudioEnded

  /** Dots exist for the indices of the tips; the audio button is disabled while playing. */
  predicate Offered(c: Carousel, e: CarouselEvent) {
    match e
    case Dot(k) => 0 <= k < TipCount
    case PlayAudio => !c.playing
    case AudioEnded => c.playing
    case _ => true
  }

  /**
   * The state after `e`. The auto-advance timer performs the same step as
   * "next"; navigation never touches the audio flag and the audio button
   * never moves the tip.
   */
  function Apply(c: Carousel, e: CarouselEvent): (r: Carousel)
    ensures e.PlayAudio? || e.AudioEnded? || r.playing == c.playing
    ensures (e.PlayAudio? || e.AudioEnded?) ==> r.current == c.current && r.playing == e.PlayAudio?
    ensures e.Dot? ==> r.current == e.index
  {
    match e
    case Next => c.(current := NextTip(c.current))
    case Prev => c.(current := PrevTip(c.current))
    case AutoAdvance => c.(current := NextTip(c.current))
    case Dot(k) => c.(current := k)
    case PlayAudio => c.(playing := true)
    case AudioEnded => c.(playing := false)
  }

  /** The auto-advance tick and the "next" arrow are the same transition. */
  lemma AutoAdvanceIsNext(c: Carousel)
    ensures Apply(c, AutoAdvance) == Apply(c, Next)
  {
  }

  /** Clicking dot `k` shows tip `k` and leaves the audio flag alone. */
  lemma DotSelectsTip(c: Carousel, k: int)
    requires Offered(c, Dot(k))
    ensures Apply(c, Dot(k)).current == k && Apply(c, Dot(k)).playing == c.playing
  {
  }

  /** Pressing the audio button starts playback, after which the button is disabled. */
  lemma PlayDisablesButton(c: Carousel)
    requires Offered(c, PlayAudio)
    ensures Apply(c, PlayAudio).playing
    ensures !Offered(Apply(c, PlayAudio), PlayAudio)
  {
  }

  /** The index is a valid tip. */
  predicate Valid(c: Carousel) {
    0 <= c.current < TipCount
  }

  /** The tip on screen; `Valid` guarantees it exists. */
  function CurrentTip(c: Carousel): (t: string)
    requires Valid(c)
    ensures t in HealthTips
  {
    HealthTips[c.current]
  }

  /** Whether dot `k` is drawn highlighted. */
  predicate Highlighted(c: Carousel, k: int) {
    k == c.current
  }

  /** In a valid carousel exactly one dot is highlighted: the one of the tip on screen. */
  lemma ExactlyOneDotHighlighted(c: Carousel)
    requires Valid(c)
    ensures (set k | 0 <= k < TipCount && Highlighted(c, k)) == {c.current}
  {
  }

  /** Every offered event keeps the index valid. */
  lemma ApplyPreservesValid(c: Carousel, e: CarouselEvent)
    requires Valid(c) && Offered(c, e)
    ensures Valid(Apply(c, e))
  {
  }

  /** The state after a sequence of events, each applied in turn. */
  function Run(c: Carousel, events: seq<CarouselEvent>): Carousel
    decreases |events|
  {
    if events == [] then c else Run(Apply(c, events[0]), events[1..])
  }

  /** Each event is offered in the state it meets. */
  predicate AllOffered(c: Carousel, events: seq<CarouselEvent>)
    decreases |events|
  {
    events == [] || (Offered(c, events[0]) && AllOffered(Apply(c, events[0]), events[1..]))
  }

  /** Any run of offered events from a valid state keeps the index in `[0, 4)`. */
  lemma {:induction false} RunPreservesValid(c: Carousel, events: seq<CarouselEvent>)
    requires Valid(c) && AllOffered(c, events)
    ensures Valid(Run(c, events))
    decreases |events|
  {
    if events != [] {
      ApplyPreservesValid(c, events[0]);
      RunPreservesValid(Apply(c, events[0]), events[1..]);
    }
  }

  /** Every carousel reachable from the first render shows a valid tip. */
  lemma ReachableCarouselsValid(events: seq<CarouselEvent>)
    requires AllOffered(InitialCarousel, events)
    ensures Valid(Run(InitialCarousel, events))
  {
    RunPreservesValid(InitialCarousel, events);
  }
}
