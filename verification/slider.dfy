/** `SliderModule`: the index of the current slide and the animation lock.
    The 500 ms end of an animation and the autoplay interval are events. */
module Slider {

  /** `slides.length`, `currentSlideIndex` and `isAnimating`. */
  datatype Slider = Slider(count: nat, index: int, animating: bool)

  /** The current index names a slide whenever there are slides. */
  predicate Valid(s: Slider) {
    s.count == 0 || 0 <= s.index < s.count
  }

  /** `showSlide(index)`: ignored while animating or without slides;
      otherwise the slide becomes current and the animation lock is taken.
      Its callers only pass indexes of existing slides. */
  function ShowSlide(s: Slider, index: int): (r: Slider)
    requires s.animating || s.count == 0 || 0 <= index < s.count
    ensures r.count == s.count
    ensures s.animating || s.count == 0 ==> r == s
    ensures !s.animating && s.count > 0 ==> r.index == index && r.animating && Valid(r)
  {
    if s.animating || s.count == 0 then s else s.(index := index, animating := true)
  }

  /** `changeSlide(direction)`: one step, wrapping past either end. */
  function ChangeSlide(s: Slider, direction: int): (r: Slider)
    ensures r.count == s.count
    ensures s.animating || s.count == 0 ==> r == s
    ensures !s.animating && s.count > 0 ==> r.animating && Valid(r)
  {
    if s.animating then s
    else
      var next := s.index + direction;
      var wrapped := if next < 0 then s.count - 1 else if next >= s.count then 0 else next;
      ShowSlide(s, wrapped)
  }

  /** From a valid state, one step forward or back is a step modulo the
      number of slides. */
  lemma ChangeSlideIsModular(s: Slider, direction: int)
    requires Valid(s) && !s.animating && s.count > 0
    requires direction == 1 || direction == -1
    ensures ChangeSlide(s, direction).index == (s.index + direction) % s.count
  {
    var n := s.count;
    var next := s.index + direction;
    if next < 0 {
      ModUnique(next, n, -1, n - 1);
    } else if next >= n {
      ModUnique(next, n, 1, 0);
    } else {
      ModUnique(next, n, 0, next);
    }
  }

  /** `goToSlide(index)`: only an existing slide, and not while animating. */
  function GoToSlide(s: Slider, index: int): (r: Slider)
    ensures r.count == s.count
    ensures s.animating || index < 0 || index >= s.count ==> r == s
    ensures !s.animating && 0 <= index < s.count ==> r.index == index && r.animating
  {
    if s.animating || index < 0 || index >= s.count then s else ShowSlide(s, index)
  }

  /** The 500 ms timer of `showSlide` releasing the lock. */
  function AnimationEnd(s: Slider): (r: Slider)
    ensures !r.animating && r.index == s.index && r.count == s.count
  {
    s.(animating := false)
  }

  function Abs(x: int): nat {
    if x < 0 then -x else x
  }

  /** `handleSwipe`: a horizontal travel of more than 50 pixels moves one
      slide, forward for a swipe to the left and back for one to the right. */
  function Swipe(s: Slider, startX: int, endX: int): (r: Slider)
    ensures Abs(startX - endX) <= 50 ==> r == s
    ensures startX - endX > 50 ==> r == ChangeSlide(s, 1)
    ensures endX - startX > 50 ==> r == ChangeSlide(s, -1)
  {
    var diff := startX - endX;
    if Abs(diff) > 50 then
      if diff > 0 then ChangeSlide(s, 1) else ChangeSlide(s, -1)
    else s
  }

  /** `init`: without slides nothing happens; otherwise slide 0 is shown. */
  function Init(count: nat): (r: Slider)
    ensures Valid(r) && r.index == 0 && r.count == count
    ensures r.animating <==> count > 0
  {
    ShowSlide(Slider(count, 0, false), 0)
  }

  /** The inputs wired to the slider: arrows, dots, the arrow/Home/End keys,
      swipes, the autoplay interval and the end of an animation. */
  datatype Event =
    | Arrow(left: bool)
    | Dot(position: int)
    | KeyLeft | KeyRight | KeyHome | KeyEnd
    | SwipeEvent(startX: int, endX: int)
    | AutoplayTick
    | AnimationDone

  /** Every input but the end of an animation either changes nothing or
      moves to another slide and takes the animation lock. */
  function Step(s: Slider, e: Event): (r: Slider)
    ensures r.count == s.count
    ensures e.AnimationDone? ==> !r.animating && r.index == s.index
    ensures !e.AnimationDone? && r != s ==> r.animating && !s.animating
  {
    match e
    case Arrow(left) => ChangeSlide(s, if left then -1 else 1)
    case Dot(i) => GoToSlide(s, i)
    case KeyLeft => ChangeSlide(s, -1)
    case KeyRight => ChangeSlide(s, 1)
    case KeyHome => GoToSlide(s, 0)
    case KeyEnd => GoToSlide(s, s.count - 1)
    case SwipeEvent(startX, endX) => Swipe(s, startX, endX)
    // the interval is only started when there are at least two slides
    case AutoplayTick => if s.count > 1 then ChangeSlide(s, 1) else s
    case AnimationDone => AnimationEnd(s)
  }

  // ---------------------------------------------------------------------
  // Lemmas

  /** Every event keeps the index on an existing slide. */
  lemma StepKeepsValid(s: Slider, e: Event)
    requires Valid(s)
    ensures Valid(Step(s, e)) && Step(s, e).count == s.count
  {
  }

  /** While a slide animates, everything but the end of the animation is ignored. */
  lemma AnimatingIgnoresInput(s: Slider, e: Event)
    requires s.animating && !e.AnimationDone?
    ensures Step(s, e) == s
  {
  }

  /** One slide forward, the animation ends, one slide back: the same slide. */
  lemma ForwardThenBack(s: Slider)
    requires Valid(s) && !s.animating && s.count > 0
    ensures ChangeSlide(AnimationEnd(ChangeSlide(s, 1)), -1).index == s.index
  {
    var t := AnimationEnd(ChangeSlide(s, 1));
    var n := s.count;
    assert t.index == (s.index + 1) % n;
    if s.index + 1 < n {
      assert t.index == s.index + 1;
    } else {
      assert t.index == 0;
    }
  }

  /** `k` autoplay steps, each followed by the end of its animation. */
  function Advance(s: Slider, k: nat): Slider
    decreases k
  {
    if k == 0 then s else Advance(AnimationEnd(ChangeSlide(s, 1)), k - 1)
  }

  lemma {:induction false} AdvanceMovesBy(s: Slider, k: nat)
    requires Valid(s) && !s.animating && s.count > 0
    ensures Advance(s, k).index == (s.index + k) % s.count
    ensures !Advance(s, k).animating && Advance(s, k).count == s.count
    decreases k
  {
    if k > 0 {
      var t := AnimationEnd(ChangeSlide(s, 1));
      AdvanceMovesBy(t, k - 1);
      if s.index + 1 == s.count {
        assert t.index == 0;
        ModStep(k - 1, s.count);
      } else {
        assert t.index == s.index + 1;
      }
    }
  }

  /** Adding `n` does not change a remainder modulo `n`. */
  lemma ModStep(y: int, n: int)
    requires n > 0
    ensures (y + n) % n == y % n
  {
    var q, r := y / n, y % n;
    assert y == q * n + r;
    assert y + n == (q + 1) * n + r;
    ModUnique(y + n, n, q + 1, r);
  }

  lemma ModUnique(x: int, n: int, q: int, r: int)
    requires n > 0 && 0 <= r < n && x == q * n + r
    ensures x % n == r
  {
    var q', r' := x / n, x % n;
    assert x == q' * n + r';
    var d := q - q';
    assert d * n == r' - r by {
      assert q * n - q' * n == (q - q') * n;
    }
    if d > 0 {
      MulAtLeast(d, n);
    } else if d < 0 {
      MulAtLeast(-d, n);
    }
  }

  lemma {:induction false} MulAtLeast(d: int, n: int)
    requires d >= 1 && n > 0
    ensures d * n >= n
    decreases d
  {
    if d > 1 {
      MulAtLeast(d - 1, n);
      assert d * n == (d - 1) * n + n;
    }
  }

  /** As many steps as there are slides come back to the starting slide. */
  lemma FullCycle(s: Slider)
    requires Valid(s) && !s.animating && s.count > 0
    ensures Advance(s, s.count).index == s.index
  {
    AdvanceMovesBy(s, s.count);
    ModWrap(s.index, s.count);
  }

  /** Going once around a cycle of `n` comes back to the start. */
  lemma ModWrap(x: int, n: int)
    requires 0 <= x < n
    ensures (x + n) % n == x
  {
    ModStep(x, n);
    assert x == 0 * n + x;
    ModUnique(x, n, 0, x);
  }
}
