/** The image carousel of the products section (app/components/Products.tsx):
    per product, the index of the image on show and the direction of the
    last slide, kept in two arrays that `stepImage` and `goToImage` update
    one slot at a time. The number of images of each product comes from the
    site configuration and is passed in. */
module Products {

  import opened Arith

  /** A slide direction: `1 | -1`. */
  type Direction = d: int | d == 1 || d == -1 witness 1

  /** JavaScript's `a % b` for `b > 0`: the remainder of truncating
      division, smaller than `b` in magnitude, with the sign of the dividend,
      and differing from `a` by a multiple of `b` (`JsRemainderUnique` shows
      these determine it). On a non-negative dividend it agrees with `%`. */
  function JsRemainder(a: int, b: nat): (r: int)
    requires b > 0
    ensures -(b as int) < r < b
    ensures a >= 0 ==> r >= 0
    ensures a <= 0 ==> r <= 0
    ensures (a - r) % b == 0
    ensures a >= 0 ==> r == a % b
  {
    if a >= 0 then
      MultipleHasNoRemainder(a / b, b);
      a % b
    else
      var q, m := (-a) / b, (-a) % b;
      assert a + m == (-q) * b;
      MultipleHasNoRemainder(-q, b);
      -m
  }

  /** A number `b` divides is its quotient times `b`. */
  lemma DivisibleIsMultiple(x: int, b: nat)
    requires b > 0 && x % b == 0
    ensures x == (x / b) * b
  {
  }

  /** The only multiple of `b` in `[0, b)` is 0. */
  lemma SmallMultipleIsZero(x: int, b: nat, k: int)
    requires b > 0 && 0 <= x < b && x == k * b
    ensures x == 0
  {
    DivModUnique(x, b, k, 0, 0, x);
  }

  /** The four clauses of `JsRemainder`'s contract leave one value. */
  lemma JsRemainderUnique(a: int, b: nat, r: int)
    requires b > 0 && -(b as int) < r < b
    requires a >= 0 ==> r >= 0
    requires a <= 0 ==> r <= 0
    requires (a - r) % b == 0
    ensures r == JsRemainder(a, b)
  {
    var s := JsRemainder(a, b);
    var k1, k2 := (a - r) / b, (a - s) / b;
    DivisibleIsMultiple(a - r, b);
    DivisibleIsMultiple(a - s, b);
    assert s - r == (k1 - k2) * b;
    if s >= r {
      SmallMultipleIsZero(s - r, b, k1 - k2);
    } else {
      assert r - s == (k2 - k1) * b;
      SmallMultipleIsZero(r - s, b, k2 - k1);
    }
  }

  /** The truncating remainder differs from Dafny's on negative dividends. */
  lemma JsRemainderOfNegative()
    ensures JsRemainder(-1, 3) == -1 && -1 % 3 == 2
  {
  }

  /** The index `stepImage` moves to from `index` in direction `direction`
      among `imageCount` images. */
  function StepIndex(index: int, direction: Direction, imageCount: nat): (r: int)
    ensures imageCount == 0 ==> r == 0
    ensures imageCount > 0 && 0 <= index < imageCount ==> 0 <= r < imageCount
  {
    if imageCount == 0 then 0 else JsRemainder(index + direction + imageCount, imageCount)
  }

  /** From an image on show, a step forward moves to the next image and
      from the last one to the first; a step back moves to the previous
      image and from the first one to the last. */
  lemma StepNeighbours(index: int, imageCount: nat)
    requires 0 <= index < imageCount
    ensures StepIndex(index, 1, imageCount) == if index + 1 == imageCount then 0 else index + 1
    ensures StepIndex(index, -1, imageCount) == if index == 0 then imageCount - 1 else index - 1
  {
    var n := imageCount;
    var a := index + 1 + n;
    if index + 1 == n {
      DivModUnique(a, n, 2, 0, a / n, a % n);
    } else {
      DivModUnique(a, n, 1, index + 1, a / n, a % n);
    }
    var b := index - 1 + n;
    if index == 0 {
      DivModUnique(b, n, 0, n - 1, b / n, b % n);
    } else {
      DivModUnique(b, n, 1, index - 1, b / n, b % n);
    }
  }

  /** Stepping forward from the last image wraps to the first, and back
      from the first wraps to the last. */
  lemma StepWraps(imageCount: nat)
    requires imageCount > 0
    ensures StepIndex(imageCount - 1, 1, imageCount) == 0
    ensures StepIndex(0, -1, imageCount) == imageCount - 1
  {
    StepNeighbours(imageCount - 1, imageCount);
    StepNeighbours(0, imageCount);
  }

  /** A step forward and a step back, in either order, return to the same
      image. */
  lemma StepInverse(index: int, imageCount: nat)
    requires 0 <= index < imageCount
    ensures StepIndex(StepIndex(index, 1, imageCount), -1, imageCount) == index
    ensures StepIndex(StepIndex(index, -1, imageCount), 1, imageCount) == index
  {
    StepNeighbours(index, imageCount);
    StepNeighbours(StepIndex(index, 1, imageCount), imageCount);
    StepNeighbours(StepIndex(index, -1, imageCount), imageCount);
  }

  /** Stepping in one direction `imageCount` times visits every image
      once: the `k`-th forward step from `index` lands on
      `(index + k) % imageCount`. */
  function StepForward(index: int, imageCount: nat, k: nat): int {
    if k == 0 then index else StepIndex(StepForward(index, imageCount, k - 1), 1, imageCount)
  }

  lemma {:induction false} StepForwardLands(index: int, imageCount: nat, k: nat)
    requires 0 <= index < imageCount
    ensures StepForward(index, imageCount, k) == (index + k) % imageCount
  {
    if k > 0 {
      StepForwardLands(index, imageCount, k - 1);
      var prev := StepForward(index, imageCount, k - 1);
      ModSuccessor(index + k - 1, imageCount);
      StepNeighbours(prev, imageCount);
    }
  }

  lemma ModSuccessor(a: nat, n: nat)
    requires n > 0
    ensures (a + 1) % n == if a % n + 1 == n then 0 else a % n + 1
  {
    var q := a / n;
    var r := a % n;
    assert a == q * n + r;
    if r + 1 < n {
      assert a + 1 == q * n + (r + 1);
      DivModUnique(a + 1, n, q, r + 1, (a + 1) / n, (a + 1) % n);
    } else {
      assert a + 1 == (q + 1) * n;
      DivModUnique(a + 1, n, q + 1, 0, (a + 1) / n, (a + 1) % n);
    }
  }

  /** The direction `goToImage` records: forward unless the target comes
      before the image on show. */
  function DirectionTo(currentIndex: int, imageIndex: int): (d: Direction)
    ensures d == 1 <==> imageIndex >= currentIndex
  {
    if imageIndex >= currentIndex then 1 else -1
  }

  /** The carousel state of the products section. */
  class Carousel {
    /** The number of images of each product. */
    const imageCounts: seq<nat>
    /** `activeImageIndexes`. */
    const activeImageIndexes: array<int>
    /** `slideDirections`. */
    const slideDirections: array<int>

    /** One slot per product in two separate arrays. */
    predicate Sized()
      reads this
    {
      && activeImageIndexes.Length == |imageCounts|
      && slideDirections.Length == |imageCounts|
      && activeImageIndexes != slideDirections
    }

    /** Every product shows one of its images (index 0 when it has none),
      and every direction is `1` or `-1`. */
    predicate Valid()
      reads this, activeImageIndexes, slideDirections
    {
      && Sized()
      && forall p | 0 <= p < |imageCounts| ::
           && (if imageCounts[p] == 0 then activeImageIndexes[p] == 0
               else 0 <= activeImageIndexes[p] < imageCounts[p])
           && (slideDirections[p] == 1 || slideDirections[p] == -1)
    }

    /** The initial state: every product on its first image, sliding
        forward. */
    constructor(imageCounts: seq<nat>)
      ensures this.imageCounts == imageCounts
      ensures fresh(activeImageIndexes) && fresh(slideDirections)
      ensures Valid()
      ensures forall p | 0 <= p < |imageCounts| ::
        activeImageIndexes[p] == 0 && slideDirections[p] == 1
    {
      this.imageCounts := imageCounts;
      activeImageIndexes := new int[|imageCounts|](_ => 0);
      slideDirections := new int[|imageCounts|](_ => 1);
    }

    /** `goToImage(productIndex, imageIndex)`: record the direction from
        the image on show, then show the chosen image. Only slot
        `productIndex` of each array changes; a target among the product's
        images keeps the carousel valid. */
    method GoToImage(productIndex: nat, imageIndex: int)
      requires Sized() && productIndex < |imageCounts|
      modifies activeImageIndexes, slideDirections
      ensures slideDirections[..] ==
        old(slideDirections[..])[productIndex := DirectionTo(old(activeImageIndexes[productIndex]), imageIndex)]
      ensures activeImageIndexes[..] == old(activeImageIndexes[..])[productIndex := imageIndex]
      ensures old(Valid()) && 0 <= imageIndex < imageCounts[productIndex] ==> Valid()
    {
      var currentIndex := activeImageIndexes[productIndex];
      slideDirections[productIndex] := DirectionTo(currentIndex, imageIndex);
      activeImageIndexes[productIndex] := imageIndex;
    }

    /** `stepImage(productIndex, direction)`: record the direction, then
        move one image along, wrapping at either end; a product without
        images stays on index 0. Only slot `productIndex` of each array
        changes, and the carousel stays valid. */
    method StepImage(productIndex: nat, direction: Direction)
      requires Sized() && productIndex < |imageCounts|
      modifies activeImageIndexes, slideDirections
      ensures slideDirections[..] == old(slideDirections[..])[productIndex := direction]
      ensures activeImageIndexes[..] == old(activeImageIndexes[..])[productIndex :=
        StepIndex(old(activeImageIndexes[productIndex]), direction, imageCounts[productIndex])]
      ensures old(Valid()) ==> Valid()
    {
      slideDirections[productIndex] := direction;
      var imageCount := imageCounts[productIndex];
      if imageCount == 0 {
        activeImageIndexes[productIndex] := 0;
        return;
      }
      activeImageIndexes[productIndex] :=
        JsRemainder(activeImageIndexes[productIndex] + direction + imageCount, imageCount);
    }
  }
}
