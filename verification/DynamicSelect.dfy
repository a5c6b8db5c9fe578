/**
 A select field that shows a sliding window of a long option list: options are loaded at the end that
 the user scrolls to and dropped at the other, and the scroll position is moved so that the viewed row
 stays where it was.
 */
module DynamicSelect {

  const MAX_OPTIONS: nat := 3000
  const BEFORE_NEXT_SET: nat := 10
  const OPTIONS_TO_LOAD: nat := 200

  /** The rows from first to last, in order. */
  ghost predicate Window(children: seq<nat>, first: nat) {
    forall i :: 0 <= i < |children| ==> children[i] == first + i
  }

  function Min(a: int, b: int): int {
    if a <= b then a else b
  }

  function Max(a: int, b: int): int {
    if a >= b then a else b
  }

  /** A list of options in a box; all heights are in pixels. */
  datatype Field = Field(total: nat, optionHeight: nat, selectHeight: nat)

  /** The first option shown, and where the box was last scrolled to. */
  datatype View = View(first: int, last: int)

  ghost predicate NearBottom(f: Field, position: int) {
    position + f.selectHeight >= (MAX_OPTIONS - BEFORE_NEXT_SET) * f.optionHeight
  }

  ghost predicate NearTop(f: Field, position: int) {
    position <= BEFORE_NEXT_SET * f.optionHeight
  }

  /** What a scroll event does: at the end that the user scrolls to a set of options is loaded, or what there is. */
  ghost function Slide(f: Field, v: View, position: int): View {
    View(if v.last <= position && NearBottom(f, position) then Min(v.first + OPTIONS_TO_LOAD, f.total - MAX_OPTIONS)
         else if position <= v.last && NearTop(f, position) then Max(v.first - OPTIONS_TO_LOAD, 0)
         else v.first,
         position)
  }

  class SelectField {
    /** How many options there are in all. */
    const total: nat
    const optionHeight: nat
    const selectHeight: nat
    /** The index stored on each rendered option, in order. */
    var children: seq<nat>
    var scrollTop: int
    var lastScrollTop: int
    var currentScrollTop: int
    /** Whether scrolling loads options. */
    var scrolls: bool

    /** The browser keeps the scroll position within the content. */
    function Clamped(position: int): int
      reads this
    {
      var bottom := |children| * optionHeight - selectHeight;
      if position < 0 || bottom < 0 then 0 else if position > bottom then bottom else position
    }

    ghost predicate InRange(position: int)
      reads this
    {
      0 <= position <= |children| * optionHeight - selectHeight
    }

    ghost predicate Valid()
      reads this
    {
      && |children| == MAX_OPTIONS <= total
      && Window(children, children[0])
      && children[0] + MAX_OPTIONS <= total
      && (scrolls <==> total > MAX_OPTIONS)
    }

    /** The pixel row of the whole list that is at the top of the box. */
    ghost function ViewedPixel(): int
      requires |children| > 0
      reads this
    {
      children[0] * optionHeight + scrollTop
    }

    constructor (total: nat, optionHeight: nat, selectHeight: nat)
      ensures this.total == total && this.optionHeight == optionHeight && this.selectHeight == selectHeight
    {
      this.total, this.optionHeight, this.selectHeight := total, optionHeight, selectHeight;
      children, scrollTop, lastScrollTop, currentScrollTop, scrolls := [], 0, 0, 0, false;
    }

    /** Fails on the first missing option when there are fewer than are to be shown. */
    method InitSelect() returns (ok: bool)
      modifies this
      ensures ok <==> total >= MAX_OPTIONS
      ensures ok ==> Valid() && Now() == View(0, 0)
    {
      lastScrollTop, scrollTop := 0, 0;
      children := [];
      var i := 0;
      while i < MAX_OPTIONS
        invariant 0 <= i <= MAX_OPTIONS && i <= total
        invariant |children| == i && Window(children, 0) && lastScrollTop == 0
      {
        if i >= total {
          return false;
        }
        children := children + [i];
        i := i + 1;
      }
      scrolls := total > MAX_OPTIONS;
      assert children[0] == 0;
      ok := true;
    }

    ghost function Now(): View
      requires |children| > 0
      reads this
    {
      View(children[0], lastScrollTop)
    }

    ghost function Box(): Field {
      Field(total, optionHeight, selectHeight)
    }

    /** The box has been scrolled to a position that the browser allows: its window slides, or stays. */
    method Scrolled(position: int)
      requires Valid() && scrolls && InRange(position)
      modifies this
      ensures Valid() && Now() == Slide(Box(), old(Now()), position)
      ensures selectHeight <= (MAX_OPTIONS - BEFORE_NEXT_SET - OPTIONS_TO_LOAD) * optionHeight ==>
        ViewedPixel() == old(children[0]) * optionHeight + position
    {
      scrollTop := position;
      OnScroll();
    }

    method OnScroll()
      requires Valid() && scrolls && InRange(scrollTop)
      modifies this
      ensures Valid() && Now() == Slide(Box(), old(Now()), old(scrollTop))
      ensures selectHeight <= (MAX_OPTIONS - BEFORE_NEXT_SET - OPTIONS_TO_LOAD) * optionHeight ==>
        ViewedPixel() == old(ViewedPixel())
    {
      var top := scrollTop;
      var totalHeight := |children| * optionHeight;
      var currentScroll := top + selectHeight;
      currentScrollTop := top;
      ghost var first := children[0];
      if top >= lastScrollTop && currentScroll + BEFORE_NEXT_SET * optionHeight >= totalHeight {
        LoadNextOptions();
        AtMostASet(children[0] - first, optionHeight);
      } else if top <= lastScrollTop && top - BEFORE_NEXT_SET * optionHeight <= 0 {
        LoadPreviousOptions();
        AtMostASet(first - children[0], optionHeight);
      }
      lastScrollTop := top;
    }

    /** Appends the options that follow, at most a set, and drops as many rows from the top. */
    method LoadNextOptions()
      requires Valid() && InRange(currentScrollTop)
      modifies this`children, this`scrollTop
      ensures Valid()
      ensures children[0] == Min(old(children[0]) + OPTIONS_TO_LOAD, total - MAX_OPTIONS)
      ensures ViewedPixel() == old(children[0]) * optionHeight + currentScrollTop <==>
              InRange(currentScrollTop - (children[0] - old(children[0])) * optionHeight)
    {
      var position := currentScrollTop + selectHeight;
      var first := children[0];
      var lastIndex := children[|children| - 1];
      var toAdd := 0;
      while toAdd < OPTIONS_TO_LOAD && lastIndex + 1 + toAdd < total
        invariant 0 <= toAdd <= OPTIONS_TO_LOAD && lastIndex + toAdd < total
        invariant |children| == MAX_OPTIONS + toAdd && Window(children, first)
      {
        children := children + [lastIndex + 1 + toAdd];
        toAdd := toAdd + 1;
      }
      var toRemove := |children| - MAX_OPTIONS;
      if toRemove > 0 {
        children := children[toRemove..];
      } else {
        toRemove := 0;
      }
      Distribute(first, toRemove, optionHeight);
      scrollTop := Clamped(position - selectHeight - toRemove * optionHeight);
    }

    /** Prepends the options that come before, at most a set, and drops as many rows from the bottom. */
    method LoadPreviousOptions()
      requires Valid() && InRange(currentScrollTop)
      modifies this`children, this`scrollTop
      ensures Valid()
      ensures children[0] == Max(old(children[0]) - OPTIONS_TO_LOAD, 0)
      ensures ViewedPixel() == old(children[0]) * optionHeight + currentScrollTop <==>
              InRange(currentScrollTop + (old(children[0]) - children[0]) * optionHeight)
    {
      var first := children[0];
      var added, toAdd := 0, 0;
      while toAdd < OPTIONS_TO_LOAD && first - 1 - toAdd >= 0
        invariant 0 <= toAdd == added <= OPTIONS_TO_LOAD && added <= first
        invariant |children| == MAX_OPTIONS + added && Window(children, first - added)
      {
        added := added + 1;
        children := [first - 1 - toAdd] + children;
        toAdd := toAdd + 1;
      }
      if |children| - MAX_OPTIONS > 0 {
        children := children[..MAX_OPTIONS];
      }
      Distribute(first - added, added, optionHeight);
      scrollTop := Clamped(currentScrollTop + added * optionHeight);
    }
  }

  lemma Distribute(a: int, b: int, h: int)
    ensures (a + b) * h == a * h + b * h
  {
  }

  /** At most a set of rows is at most a set of row heights. */
  lemma AtMostASet(k: nat, h: nat)
    requires k <= OPTIONS_TO_LOAD
    ensures 0 <= k * h <= OPTIONS_TO_LOAD * h
  {
    assert k * h + (OPTIONS_TO_LOAD - k) * h == OPTIONS_TO_LOAD * h;
  }

  // ---------------------------------------------------------------- runs

  ghost predicate Allowed(f: Field, position: int) {
    0 <= position <= MAX_OPTIONS * f.optionHeight - f.selectHeight
  }

  ghost predicate Sound(f: Field, v: View) {
    0 <= v.first <= f.total - MAX_OPTIONS && Allowed(f, v.last)
  }

  /** The position at which the viewed row is after options have been loaded. */
  ghost function Moved(f: Field, v: View, position: int): int {
    position - (Slide(f, v, position).first - v.first) * f.optionHeight
  }

  /** The user scrolls; when that moves the scroll position, the browser reports it as another scroll event. */
  ghost function Scroll(f: Field, v: View, position: int): View {
    var r := Slide(f, v, position);
    if Moved(f, v, position) == position then r else Slide(f, r, Moved(f, v, position))
  }

  /** The box is low enough that no row is near the bottom and, moved by a set of options, near the top. */
  ghost predicate LowBox(f: Field) {
    f.selectHeight < (MAX_OPTIONS - OPTIONS_TO_LOAD - 2 * BEFORE_NEXT_SET) * f.optionHeight
  }

  /** In a box that is low enough the event that loading sets off loads nothing. */
  lemma EchoIsQuiet(f: Field, v: View, position: int)
    requires LowBox(f) && Sound(f, v) && Allowed(f, position)
    ensures Scroll(f, v, position).first == Slide(f, v, position).first
    ensures Sound(f, Scroll(f, v, position))
  {
    var h, d := f.optionHeight, Slide(f, v, position).first - v.first;
    if d >= 0 { AtMostASet(d, h); } else { AtMostASet(-d, h); Negated(d, h); }
  }

  lemma Negated(d: int, h: int)
    ensures -d * h == -(d * h)
  {
  }

  ghost function Scrolls(f: Field, v: View, positions: seq<int>): View
    decreases |positions|
  {
    if positions == [] then v else Scrolls(f, Scroll(f, v, positions[0]), positions[1..])
  }

  /** After scrolling to these positions, all of them allowed, option k is among those shown. */
  ghost predicate Shows(f: Field, v: View, positions: seq<int>, k: nat) {
    && (forall p :: p in positions ==> Allowed(f, p))
    && Scrolls(f, v, positions).first <= k < Scrolls(f, v, positions).first + MAX_OPTIONS
  }

  lemma ShowsLater(f: Field, v: View, position: int, positions: seq<int>, k: nat)
    requires Allowed(f, position) && Shows(f, Scroll(f, v, position), positions, k)
    ensures Shows(f, v, [position] + positions, k)
  {
    assert ([position] + positions)[1..] == positions;
  }

  /** How far option k is from the window. */
  ghost function Distance(v: View, k: int): nat {
    if k < v.first then v.first - k else if k >= v.first + MAX_OPTIONS then k - v.first - MAX_OPTIONS + 1 else 0
  }

  /** Every option can be reached: from any state some scrolling brings it into the box. */
  lemma {:induction false} EveryOptionIsReached(f: Field, v: View, k: nat)
    requires LowBox(f) && Sound(f, v) && k < f.total
    ensures exists positions :: Shows(f, v, positions, k)
    decreases Distance(v, k)
  {
    if Distance(v, k) == 0 {
      assert Shows(f, v, [], k);
    } else {
      var end := if k < v.first then 0 else MAX_OPTIONS * f.optionHeight - f.selectHeight;
      var r := Scroll(f, v, end);
      EchoIsQuiet(f, v, end);
      EveryOptionIsReached(f, r, k);
      var rest :| Shows(f, r, rest, k);
      ShowsLater(f, v, end, rest, k);
    }
  }
}
