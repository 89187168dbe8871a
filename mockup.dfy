/** The product mockups: each holds a stack of images of which one is shown;
    a click (or Enter / Space) moves to the next image, wrapping round. */
module MockupCycler {
  import opened Wrappers

  /** The two style properties the cycler writes on an image. */
  datatype Image = Image(opacity: string, transform: string)

  const Shown: Image := Image("1", "scale(1)")
  const Hidden: Image := Image("0", "scale(.98)")

  /** JavaScript's `%` on integers: the remainder takes the sign of the dividend. */
  function JsRemainder(a: int, n: int): (r: int)
    requires n > 0
    ensures a >= 0 ==> 0 <= r < n
    ensures a < 0 ==> -n < r <= 0
    ensures (a - r) % n == 0
  {
    RemainderOffMultiple(a, n);
    if a >= 0 then a % n else -((-a) % n)
  }

  /** A remainder is determined by any quotient/remainder split. */
  lemma ModUnique(x: int, n: int, q: int, r: int)
    requires n > 0 && 0 <= r < n && x == q * n + r
    ensures x % n == r && x / n == q
  {
    var d := q - x / n;
    assert d * n == x % n - r;
  }

  /** The dividend minus its truncated remainder is a multiple of the divisor. */
  lemma RemainderOffMultiple(a: int, n: int)
    requires n > 0
    ensures a >= 0 ==> (a - a % n) % n == 0
    ensures a < 0 ==> (a + (-a) % n) % n == 0
  {
    if a >= 0 {
      var q := a / n;
      assert a - a % n == q * n;
      ModUnique(a - a % n, n, q, 0);
    } else {
      var q := (-a) / n;
      assert -a - (-a) % n == q * n;
      assert a + (-a) % n == (-q) * n;
      ModUnique(a + (-a) % n, n, -q, 0);
    }
  }

  /** The images as `showIndex(container, index)` leaves them. */
  function Rendered(n: nat, index: int): (imgs: seq<Image>)
    ensures |imgs| == n
    ensures forall k :: 0 <= k < n ==> imgs[k] == if k == index then Shown else Hidden
  {
    seq(n, k => if k == index then Shown else Hidden)
  }

  /** How many images are shown. */
  function ShownCount(imgs: seq<Image>): nat
  {
    if imgs == [] then 0
    else ShownCount(imgs[..|imgs| - 1]) + (if imgs[|imgs| - 1] == Shown then 1 else 0)
  }

  /** `showIndex` shows exactly one image for an index in range and none otherwise. */
  lemma {:induction false} RenderedShowsOne(n: nat, index: int)
    ensures ShownCount(Rendered(n, index)) == if 0 <= index < n then 1 else 0
  {
    if n > 0 {
      assert Rendered(n, index)[..n - 1] == Rendered(n - 1, index);
      RenderedShowsOne(n - 1, index);
    }
  }

  /** The index after a click on a mockup of `n` images: unchanged below two
      images, otherwise the next one with wrap-around. */
  function ClickedIndex(index: int, n: nat): (r: int)
    ensures n < 2 ==> r == index
    ensures n >= 2 && index >= -1 ==> 0 <= r < n
    ensures n >= 2 && 0 <= index < n - 1 ==> r == index + 1
    ensures n >= 2 && index == n - 1 ==> r == 0
    ensures n >= 2 && index >= 0 ==> r == (index + 1) % n
  {
    if n < 2 then index else JsRemainder(index + 1, n)
  }

  /** The state of a mockup: the recorded `data-mockup-index` and the images. */
  datatype State = State(index: int, imgs: seq<Image>)

  /** `showIndex` as a state change. */
  function Displayed(s: State, index: int): (t: State)
    ensures t.index == index && |t.imgs| == |s.imgs|
    ensures forall k :: 0 <= k < |t.imgs| ==> (t.imgs[k] == Shown <==> k == index)
  {
    State(index, Rendered(|s.imgs|, index))
  }

  /** The click handler as a state change. */
  function AfterClick(s: State): (t: State)
    ensures |s.imgs| < 2 ==> t == s
    ensures |s.imgs| >= 2 ==> t == Displayed(s, ClickedIndex(s.index, |s.imgs|))
  {
    if |s.imgs| < 2 then s else Displayed(s, ClickedIndex(s.index, |s.imgs|))
  }

  predicate IsActivationKey(key: string)
  {
    key == "Enter" || key == " "
  }

  /** The keydown handler as a state change: Enter and Space click. */
  function AfterKey(s: State, key: string): (t: State)
    ensures IsActivationKey(key) ==> t == AfterClick(s)
    ensures !IsActivationKey(key) ==> t == s
  {
    if IsActivationKey(key) then AfterClick(s) else s
  }

  /** The state after `k` clicks. */
  function Clicks(s: State, k: nat): (t: State)
    ensures |t.imgs| == |s.imgs|
    ensures |s.imgs| < 2 ==> t == s
  {
    if k == 0 then s else AfterClick(Clicks(s, k - 1))
  }

  /** Clicks keep the image count and, from an index in range, advance it by
      one each, modulo the image count. */
  lemma {:induction false} ClicksAdvance(s: State, k: nat)
    requires |s.imgs| >= 2 && 0 <= s.index < |s.imgs|
    ensures |Clicks(s, k).imgs| == |s.imgs|
    ensures Clicks(s, k).index == (s.index + k) % |s.imgs|
    ensures k > 0 ==> Clicks(s, k) == Displayed(s, (s.index + k) % |s.imgs|)
  {
    if k > 0 {
      ClicksAdvance(s, k - 1);
      var n := |s.imgs|;
      var prev := Clicks(s, k - 1);
      NextRemainder(s.index + k - 1, n);
      assert ClickedIndex(prev.index, n) == (s.index + k) % n;
    }
  }

  /** Advancing a remainder by one is the remainder of the successor. */
  lemma NextRemainder(x: nat, n: nat)
    requires n >= 2
    ensures ClickedIndex(x % n, n) == (x + 1) % n
  {
    var q, r := x / n, x % n;
    if r + 1 < n {
      ModUnique(x + 1, n, q, r + 1);
      ModUnique(r + 1, n, 0, r + 1);
    } else {
      ModUnique(x + 1, n, q + 1, 0);
      ModUnique(r + 1, n, 1, 0);
    }
  }

  /** From a displayed state, as the page shows it once loaded, `n` clicks on
      `n` images give back the starting state. */
  lemma CyclesBack(s: State)
    requires |s.imgs| >= 2 && 0 <= s.index < |s.imgs|
    requires s.imgs == Rendered(|s.imgs|, s.index)
    ensures Clicks(s, |s.imgs|) == s
  {
    ClicksAdvance(s, |s.imgs|);
    ModUnique(s.index + |s.imgs|, |s.imgs|, 1, s.index);
  }

  /** One `.mockup` container with its images. */
  class Mockup {
    const imgs: array<Image>
    var index: int

    ghost function Current(): State
      reads this, imgs
    {
      State(index, imgs[..])
    }

    /** Sets the container up as the page does at load: `showIndex` with the
        recorded index, or 0 when there is none. */
    constructor (imgs: array<Image>, recorded: Option<int>)
      modifies imgs
      ensures this.imgs == imgs
      ensures Current() == Displayed(State(0, old(imgs[..])), if recorded.Some? then recorded.value else 0)
    {
      this.imgs := imgs;
      index := 0;
      new;
      ShowIndex(if recorded.Some? then recorded.value else 0);
    }

    method ShowIndex(i: int)
      modifies this, imgs
      ensures Current() == Displayed(old(Current()), i)
    {
      var k := 0;
      while k < imgs.Length
        invariant 0 <= k <= imgs.Length
        invariant forall j :: 0 <= j < k ==> imgs[j] == if j == i then Shown else Hidden
      {
        imgs[k] := if k == i then Shown else Hidden;
        k := k + 1;
      }
      index := i;
    }

    method Click()
      modifies this, imgs
      ensures Current() == AfterClick(old(Current()))
    {
      if imgs.Length < 2 {
        return;
      }
      var next := ClickedIndex(index, imgs.Length);
      ShowIndex(next);
    }

    method KeyDown(key: string)
      modifies this, imgs
      ensures Current() == AfterKey(old(Current()), key)
    {
      if IsActivationKey(key) {
        Click();
      }
    }
  }
}
