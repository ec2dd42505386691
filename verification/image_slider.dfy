/** The image slider: an index over the page's slides, the "active" flag of
    each slide and of each indicator dot, and the three ways to move. The
    flags stand for the `active` class on the slide images and on the dots. */
module ImageSlider {

  import opened Wrappers

  /** `n` flags with only the one at `i` set. */
  function OneHot(n: nat, i: nat): (flags: seq<bool>)
    ensures |flags| == n
    ensures forall j :: 0 <= j < n ==> (flags[j] <==> j == i)
  {
    seq(n, j => j == i)
  }

  datatype Slider = Slider(current: nat, slides: seq<bool>, dots: seq<bool>) {

    function Count(): nat {
      |slides|
    }

    /** The shape the handlers rely on: at least one slide, one dot per slide,
        and an index that names a slide. */
    predicate WellFormed() {
      |slides| >= 1 && |dots| == |slides| && current < |slides|
    }

    /** Exactly the slide and the dot at `current` are active. */
    predicate Valid() {
      WellFormed() && slides == OneHot(|slides|, current) && dots == OneHot(|slides|, current)
    }
  }

  /** The valid state over `n` slides that shows slide `i`. */
  function Showing(n: nat, i: nat): (s: Slider)
    requires i < n
    ensures s.Valid() && s.Count() == n && s.current == i
  {
    Slider(i, OneHot(n, i), OneHot(n, i))
  }

  /** A valid state is determined by its slide count and its index. */
  lemma ValidIsShowing(s: Slider)
    requires s.WellFormed()
    ensures s.Valid() <==> s == Showing(s.Count(), s.current)
  {
  }

  function ActiveSlides(s: Slider): set<nat> {
    set i: nat | i < |s.slides| && s.slides[i]
  }

  function ActiveDots(s: Slider): set<nat> {
    set i: nat | i < |s.dots| && s.dots[i]
  }

  /** A state is valid exactly when the active slides and the active dots are
      both the current index and nothing else. */
  lemma ValidIffSingleActive(s: Slider)
    requires s.WellFormed()
    ensures s.Valid() <==> ActiveSlides(s) == {s.current} && ActiveDots(s) == {s.current}
  {
    var n := s.Count();
    if ActiveSlides(s) == {s.current} && ActiveDots(s) == {s.current} {
      forall i | 0 <= i < n ensures s.slides[i] == OneHot(n, s.current)[i] {
        assert s.slides[i] <==> i in ActiveSlides(s);
      }
      forall i | 0 <= i < n ensures s.dots[i] == OneHot(n, s.current)[i] {
        assert s.dots[i] <==> i in ActiveDots(s);
      }
    }
    if s.Valid() {
      assert s.current in ActiveSlides(s) && s.current in ActiveDots(s);
    }
  }

  /** The next-button index: one on, wrapping from the last slide to the first. */
  function NextIndex(i: nat, n: nat): (j: nat)
    requires i < n
    ensures j < n
    ensures i + 1 < n ==> j == i + 1
    ensures i + 1 == n ==> j == 0
  {
    (i + 1) % n
  }

  /** The previous-button index: one back, wrapping from the first slide to
      the last. Both operands of `%` are non-negative here, so the remainder
      of the page's script and Dafny's agree. */
  function PreviousIndex(i: nat, n: nat): (j: nat)
    requires i < n
    ensures j < n
    ensures i > 0 ==> j == i - 1
    ensures i == 0 ==> j == n - 1
  {
    (i - 1 + n) % n
  }

  lemma IndexStepsAreInverse(i: nat, n: nat)
    requires i < n
    ensures PreviousIndex(NextIndex(i, n), n) == i
    ensures NextIndex(PreviousIndex(i, n), n) == i
  {
  }

  /** `r` is `s` after a move to index `k`: the current index is `k`, slide
      `k` and dot `k` are active, the old index's flags are cleared when it
      differs from `k`, and every other flag is as it was in `s`. */
  predicate MovedTo(s: Slider, r: Slider, k: nat)
    requires s.WellFormed() && k < s.Count()
  {
    && r.WellFormed() && r.Count() == s.Count() && r.current == k
    && r.slides[k] && r.dots[k]
    && (k != s.current ==> !r.slides[s.current] && !r.dots[s.current])
    && forall i :: 0 <= i < s.Count() && i != k && i != s.current ==>
         r.slides[i] == s.slides[i] && r.dots[i] == s.dots[i]
  }

  /** `goToSlide`: clear the flags at the old index, move, set the flags at
      the new one. Every other flag is left as it was. */
  function GoToSlide(s: Slider, k: nat): (r: Slider)
    requires s.WellFormed() && k < s.Count()
    ensures MovedTo(s, r, k)
  {
    var cleared := s.(slides := s.slides[s.current := false], dots := s.dots[s.current := false]);
    var moved := cleared.(current := k);
    moved.(slides := moved.slides[k := true], dots := moved.dots[k := true])
  }

  /** `goToSlide(k)` ends with exactly index `k` active precisely when no
      index other than the old and the new one was active before. */
  lemma GoToSlideValidIff(s: Slider, k: nat)
    requires s.WellFormed() && k < s.Count()
    ensures GoToSlide(s, k).Valid() <==>
      forall i :: 0 <= i < s.Count() && i != k && i != s.current ==> !s.slides[i] && !s.dots[i]
  {
    var r := GoToSlide(s, k);
    var n := s.Count();
    if forall i :: 0 <= i < n && i != k && i != s.current ==> !s.slides[i] && !s.dots[i] {
      assert r.slides == OneHot(n, k);
      assert r.dots == OneHot(n, k);
    }
  }

  /** From a valid state, `goToSlide(k)` leaves exactly slide `k` and dot `k`
      active. */
  lemma GoToSlideKeepsOneActive(s: Slider, k: nat)
    requires s.WellFormed() && k < s.Count()
    ensures s.Valid() ==> GoToSlide(s, k) == Showing(s.Count(), k)
    ensures s.Valid() ==> ActiveSlides(GoToSlide(s, k)) == {k} && ActiveDots(GoToSlide(s, k)) == {k}
  {
    if s.Valid() {
      GoToSlideValidIff(s, k);
      ValidIsShowing(GoToSlide(s, k));
      ValidIffSingleActive(GoToSlide(s, k));
    }
  }

  /** The next button. */
  function Next(s: Slider): (r: Slider)
    requires s.WellFormed()
    ensures r.WellFormed() && r.Count() == s.Count()
    ensures r.current == NextIndex(s.current, s.Count())
    ensures MovedTo(s, r, r.current)
    ensures s.Valid() ==> r == Showing(s.Count(), r.current)
  {
    var k := NextIndex(s.current, s.Count());
    GoToSlideKeepsOneActive(s, k);
    GoToSlide(s, k)
  }

  /** The previous button. */
  function Previous(s: Slider): (r: Slider)
    requires s.WellFormed()
    ensures r.WellFormed() && r.Count() == s.Count()
    ensures r.current == PreviousIndex(s.current, s.Count())
    ensures MovedTo(s, r, r.current)
    ensures s.Valid() ==> r == Showing(s.Count(), r.current)
  {
    var k := PreviousIndex(s.current, s.Count());
    GoToSlideKeepsOneActive(s, k);
    GoToSlide(s, k)
  }

  lemma PreviousUndoesNext(s: Slider)
    requires s.Valid()
    ensures Previous(Next(s)) == s
  {
    IndexStepsAreInverse(s.current, s.Count());
    ValidIsShowing(s);
  }

  lemma NextUndoesPrevious(s: Slider)
    requires s.Valid()
    ensures Next(Previous(s)) == s
  {
    IndexStepsAreInverse(s.current, s.Count());
    ValidIsShowing(s);
  }

  /** The index after `m` presses of next, starting from `i`. */
  function StepsForward(i: nat, m: nat, n: nat): (j: nat)
    requires i < n
    ensures j < n
  {
    if m == 0 then i else NextIndex(StepsForward(i, m - 1, n), n)
  }

  /** The index after `m` presses of previous, starting from `i`. */
  function StepsBack(i: nat, m: nat, n: nat): (j: nat)
    requires i < n
    ensures j < n
  {
    if m == 0 then i else PreviousIndex(StepsBack(i, m - 1, n), n)
  }

  /** `m` presses of the next button: from a valid state, the valid state at
      the index `m` steps on. */
  function Advance(s: Slider, m: nat): (r: Slider)
    requires s.WellFormed()
    ensures r.WellFormed() && r.Count() == s.Count()
    ensures r.current == StepsForward(s.current, m, s.Count())
    ensures s.Valid() ==> r == Showing(s.Count(), r.current)
  {
    if m == 0 then
      ValidIsShowing(s);
      s
    else
      Next(Advance(s, m - 1))
  }

  /** `m` presses of the previous button: from a valid state, the valid state
      at the index `m` steps back. */
  function Rewind(s: Slider, m: nat): (r: Slider)
    requires s.WellFormed()
    ensures r.WellFormed() && r.Count() == s.Count()
    ensures r.current == StepsBack(s.current, m, s.Count())
    ensures s.Valid() ==> r == Showing(s.Count(), r.current)
  {
    if m == 0 then
      ValidIsShowing(s);
      s
    else
      Previous(Rewind(s, m - 1))
  }

  /** Until the last slide is reached, each press of next moves one on. */
  lemma {:induction false} StepsForwardWithoutWrap(i: nat, m: nat, n: nat)
    requires i + m < n
    ensures StepsForward(i, m, n) == i + m
  {
    if m > 0 {
      StepsForwardWithoutWrap(i, m - 1, n);
    }
  }

  /** Until the first slide is reached, each press of previous moves one back. */
  lemma {:induction false} StepsBackWithoutWrap(i: nat, m: nat, n: nat)
    requires m <= i < n
    ensures StepsBack(i, m, n) == i - m
  {
    if m > 0 {
      StepsBackWithoutWrap(i, m - 1, n);
    }
  }

  lemma {:induction false} StepsForwardAdd(i: nat, a: nat, b: nat, n: nat)
    requires i < n
    ensures StepsForward(i, a + b, n) == StepsForward(StepsForward(i, a, n), b, n)
  {
    if b > 0 {
      StepsForwardAdd(i, a, b - 1, n);
      assert a + (b - 1) == a + b - 1;
    }
  }

  lemma {:induction false} StepsBackAdd(i: nat, a: nat, b: nat, n: nat)
    requires i < n
    ensures StepsBack(i, a + b, n) == StepsBack(StepsBack(i, a, n), b, n)
  {
    if b > 0 {
      StepsBackAdd(i, a, b - 1, n);
      assert a + (b - 1) == a + b - 1;
    }
  }

  /** `n` presses of next return to the starting index: the first `n - i`
      wrap round to 0, the remaining `i` climb back. */
  lemma StepsForwardFullCycle(i: nat, n: nat)
    requires i < n
    ensures StepsForward(i, n, n) == i
  {
    StepsForwardWithoutWrap(i, n - i - 1, n);
    assert StepsForward(i, n - i, n) == 0;
    StepsForwardWithoutWrap(0, i, n);
    StepsForwardAdd(i, n - i, i, n);
  }

  /** `n` presses of previous return to the starting index: the first `i + 1`
      wrap round to the last slide, the remaining `n - i - 1` come back down. */
  lemma StepsBackFullCycle(i: nat, n: nat)
    requires i < n
    ensures StepsBack(i, n, n) == i
  {
    StepsBackWithoutWrap(i, i, n);
    assert StepsBack(i, i + 1, n) == n - 1;
    StepsBackWithoutWrap(n - 1, n - i - 1, n);
    StepsBackAdd(i, i + 1, n - i - 1, n);
  }

  /** Pressing next once per slide comes back to the same state. */
  lemma FullCycleIsIdentity(s: Slider)
    requires s.Valid()
    ensures Advance(s, s.Count()) == s
  {
    StepsForwardFullCycle(s.current, s.Count());
    ValidIsShowing(s);
  }

  /** Pressing previous once per slide comes back to the same state. */
  lemma FullRewindIsIdentity(s: Slider)
    requires s.Valid()
    ensures Rewind(s, s.Count()) == s
  {
    StepsBackFullCycle(s.current, s.Count());
    ValidIsShowing(s);
  }

  /** Page-load setup. `markup` gives the `active` class each slide image
      carries in the page as served; the script does not touch it. The slider
      is not set up when there are no slides or either button is missing.
      Otherwise one dot is created per slide, only the first active, and the
      index starts at 0. */
  function Setup(markup: seq<bool>, hasPrevButton: bool, hasNextButton: bool): (r: Option<Slider>)
    ensures r.None? <==> markup == [] || !hasPrevButton || !hasNextButton
    ensures r.Some? ==> r.value.WellFormed() && r.value.current == 0 && r.value.slides == markup
    ensures r.Some? ==> ActiveDots(r.value) == {0}
    ensures r.Some? ==> (r.value.Valid() <==> markup == OneHot(|markup|, 0))
  {
    if markup == [] || !hasPrevButton || !hasNextButton then None
    else
      var s := Slider(0, markup, OneHot(|markup|, 0));
      assert 0 in ActiveDots(s);
      Some(s)
  }

  /** When the markup marks no slide other than the first as active, the
      first move leaves exactly its target active, whether or not the first
      slide itself was marked. */
  lemma FirstMoveRepairsMarkup(markup: seq<bool>, k: nat)
    requires |markup| >= 1 && k < |markup|
    requires forall i :: 0 < i < |markup| ==> !markup[i]
    ensures Setup(markup, true, true).Some?
    ensures GoToSlide(Setup(markup, true, true).value, k).Valid()
  {
    GoToSlideValidIff(Setup(markup, true, true).value, k);
  }

  /** The same holds for the buttons: when the markup marks no slide other
      than the first, the first press of either button leaves exactly the
      slide it moves to active. */
  lemma FirstPressRepairsMarkup(markup: seq<bool>)
    requires |markup| >= 1
    requires forall i :: 0 < i < |markup| ==> !markup[i]
    ensures Setup(markup, true, true).Some?
    ensures Next(Setup(markup, true, true).value).Valid()
    ensures Previous(Setup(markup, true, true).value).Valid()
  {
    var s := Setup(markup, true, true).value;
    GoToSlideValidIff(s, NextIndex(s.current, s.Count()));
    GoToSlideValidIff(s, PreviousIndex(s.current, s.Count()));
  }
}
