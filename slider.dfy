/** `Slider.js`: the home page slideshow, with one `active` slide and dot. */
module Slider {
  import opened Browser

  /** `nextSlide`'s index step over `n` slides. */
  function NextIndex(i: int, n: int): (r: int)
    requires n > 0
    ensures -1 <= i < n ==> 0 <= r < n
  {
    JsRem(i + 1, n)
  }

  /** The index after `k` steps. */
  function Advance(i: int, n: int, k: nat): int
    requires n > 0
  {
    if k == 0 then i else NextIndex(Advance(i, n, k - 1), n)
  }

  lemma SmallRemainder(x: int, n: int)
    requires 0 <= x < n
    ensures x % n == x
  {
  }

  lemma SelfRemainder(n: int)
    requires n > 0
    ensures n % n == 0
  {
  }

  /** From a valid index, `k <= n` steps wrap around at most once. */
  lemma {:induction false} AdvanceWraps(i: int, n: int, k: nat)
    requires 0 <= i < n && k <= n
    ensures Advance(i, n, k) == if i + k < n then i + k else i + k - n
  {
    if k > 0 {
      AdvanceWraps(i, n, k - 1);
      var j := Advance(i, n, k - 1);
      assert Advance(i, n, k) == JsRem(j + 1, n);
      if j + 1 < n {
        SmallRemainder(j + 1, n);
      } else {
        SelfRemainder(n);
      }
    }
  }

  /** Advancing once per slide comes back to the starting slide, and not sooner. */
  lemma FullCycle(i: int, n: int)
    requires 0 <= i < n
    ensures Advance(i, n, n) == i
    ensures forall k :: 0 < k < n ==> Advance(i, n, k) != i
  {
    AdvanceWraps(i, n, n);
    forall k | 0 < k < n ensures Advance(i, n, k) != i {
      AdvanceWraps(i, n, k);
    }
  }

  class Slideshow {
    var currentSlideIndex: int
    /** `.slide` elements: whether each carries `active`. */
    const slides: array<bool>
    /** `.dot` elements: whether each carries `active`. */
    const dots: array<bool>

    ghost predicate Valid()
      reads this
    {
      slides != dots
    }

    constructor (slides: array<bool>, dots: array<bool>)
      requires slides != dots
      ensures Valid() && this.slides == slides && this.dots == dots && currentSlideIndex == 0
    {
      this.slides := slides;
      this.dots := dots;
      currentSlideIndex := 0;
    }

    /**
     * `showSlide(index)`: clears every flag, then sets slide and dot `index`.
     * An index with no slide, or no dot, makes the script fail there:
     * `ok` is false and nothing after the failing step happens.
     */
    method ShowSlide(index: int) returns (ok: bool)
      requires Valid()
      modifies slides, dots
      ensures ok <==> 0 <= index < slides.Length && index < dots.Length
      ensures forall k :: 0 <= k < slides.Length ==> slides[k] == (k == index)
      ensures forall k :: 0 <= k < dots.Length ==> dots[k] == (k == index && index < slides.Length)
      ensures ok ==> CountTrue(slides[..]) == 1 && CountTrue(dots[..]) == 1
    {
      for k := 0 to slides.Length
        invariant forall j :: 0 <= j < k ==> !slides[j]
      {
        slides[k] := false;
      }
      for k := 0 to dots.Length
        invariant forall j :: 0 <= j < k ==> !dots[j]
        invariant forall j :: 0 <= j < slides.Length ==> !slides[j]
      {
        dots[k] := false;
      }
      if 0 <= index < slides.Length {
        slides[index] := true;
        ok := index < dots.Length;
        if ok {
          dots[index] := true;
          OneHotCount(slides[..], index);
          OneHotCount(dots[..], index);
        }
      } else {
        ok := false;
      }
    }

    /** `nextSlide`: the timer's step. With no slides the index would become NaN. */
    method NextSlide() returns (ok: bool)
      requires Valid() && slides.Length > 0
      modifies this`currentSlideIndex, slides, dots
      ensures currentSlideIndex == NextIndex(old(currentSlideIndex), slides.Length)
      ensures -1 <= old(currentSlideIndex) < slides.Length ==> 0 <= currentSlideIndex < slides.Length
      ensures ok <==> 0 <= currentSlideIndex < slides.Length && currentSlideIndex < dots.Length
      ensures forall k :: 0 <= k < slides.Length ==> slides[k] == (k == currentSlideIndex)
      ensures forall k :: 0 <= k < dots.Length ==> dots[k] == (k == currentSlideIndex && currentSlideIndex < slides.Length)
      ensures ok ==> CountTrue(slides[..]) == 1 && CountTrue(dots[..]) == 1
    {
      currentSlideIndex := NextIndex(currentSlideIndex, slides.Length);
      ok := ShowSlide(currentSlideIndex);
    }

    /** `currentSlide(index)`, a dot's click handler: no range check. */
    method CurrentSlide(index: int) returns (ok: bool)
      requires Valid()
      modifies this`currentSlideIndex, slides, dots
      ensures currentSlideIndex == index
      ensures ok <==> 0 <= index < slides.Length && index < dots.Length
      ensures forall k :: 0 <= k < slides.Length ==> slides[k] == (k == index)
      ensures forall k :: 0 <= k < dots.Length ==> dots[k] == (k == index && index < slides.Length)
    {
      currentSlideIndex := index;
      ok := ShowSlide(index);
    }
  }
}
