/** The built-in gallery and its masonry layout (app/lib/gallery-images.ts):
    images are dealt round-robin into a fixed number of columns. */
module GalleryImages {

  import opened Arith

  /** `GalleryImage`. */
  datatype GalleryImage = GalleryImage(src: string, alt: string)

  /** The column count used when the caller gives none. */
  const DefaultColumnCount: nat := 4

  /** One picsum frame of the built-in list, `nn` being its two-digit number. */
  function Frame(nn: string, height: string): GalleryImage {
    GalleryImage("https://picsum.photos/seed/ride" + nn + "/900/" + height, "Biker cinematic frame " + nn)
  }

  /** `GALLERY_IMAGES`: sixteen placeholder frames. */
  const BuiltInImages: seq<GalleryImage> := [
    Frame("01", "1300"), Frame("02", "1000"), Frame("03", "1200"), Frame("04", "1050"),
    Frame("05", "1400"), Frame("06", "980"), Frame("07", "1280"), Frame("08", "1100"),
    Frame("09", "1320"), Frame("10", "960"), Frame("11", "1260"), Frame("12", "1080"),
    Frame("13", "1360"), Frame("14", "1020"), Frame("15", "1240"), Frame("16", "1180")
  ]

  /** Column `c` of `n`: `[s[c], s[c + n], s[c + 2n], ...]`. */
  function Stride(s: seq<GalleryImage>, n: nat, c: nat): (r: seq<GalleryImage>)
    requires n > 0
    ensures r == [] <==> c >= |s|
    ensures r != [] ==> r[0] == s[c]
    decreases |s| - c
  {
    if c >= |s| then [] else [s[c]] + Stride(s, n, c + n)
  }

  /** The layout: `n` columns, column `c` holding every `n`-th image from
      index `c`. */
  function Masonry(s: seq<GalleryImage>, n: nat): (columns: seq<seq<GalleryImage>>)
    requires n > 0
    ensures |columns| == n
    ensures forall c | 0 <= c < n :: columns[c] == Stride(s, n, c)
  {
    seq(n, c requires 0 <= c < n => Stride(s, n, c))
  }

  /** `toMasonryColumns`: `columnCount` empty columns, then each image is
      pushed onto column `index % columnCount` in input order. */
  method ToMasonryColumns(images: seq<GalleryImage>, columnCount: nat := DefaultColumnCount) returns (columns: array<seq<GalleryImage>>)
    requires columnCount > 0
    ensures fresh(columns)
    ensures columns[..] == Masonry(images, columnCount)
  {
    columns := new seq<GalleryImage>[columnCount](_ => []);
    assert columns[..] == Masonry(images[..0], columnCount);
    var index := 0;
    while index < |images|
      invariant 0 <= index <= |images|
      invariant columns.Length == columnCount
      invariant columns[..] == Masonry(images[..index], columnCount)
    {
      assert images[..index + 1] == images[..index] + [images[index]];
      MasonryPush(images[..index], images[index], columnCount);
      columns[index % columnCount] := columns[index % columnCount] + [images[index]];
      index := index + 1;
    }
    assert images[..index] == images;
  }

  /** Index `i` is one of `c, c + n, c + 2n, ...`. */
  predicate OnStride(n: nat, c: nat, i: nat)
    requires n > 0
    decreases i - c
  {
    c == i || (c + n <= i && OnStride(n, c + n, i))
  }

  /** Pushing one more image extends the stride that reaches its index and
      leaves every other stride alone. */
  lemma {:induction false} StridePush(s: seq<GalleryImage>, x: GalleryImage, n: nat, c: nat)
    requires n > 0 && c <= |s|
    ensures Stride(s + [x], n, c) == Stride(s, n, c) + (if OnStride(n, c, |s|) then [x] else [])
    decreases |s| - c
  {
    var t := s + [x];
    if c == |s| {
      assert Stride(t, n, c) == [x] + Stride(t, n, c + n);
    } else {
      assert t[c] == s[c];
      assert Stride(t, n, c) == [s[c]] + Stride(t, n, c + n);
      if c + n <= |s| {
        StridePush(s, x, n, c + n);
      }
    }
  }

  /** For a column index `c < n`, the stride from `c` reaches exactly the
      indices `i` with `i % n == c`. */
  lemma {:induction false} OnStrideMod(n: nat, c: nat, i: nat)
    requires 0 <= c < n
    ensures OnStride(n, c, i) <==> i % n == c
    decreases i
  {
    if i >= n {
      OnStrideMod(n, c, i - n);
      ModMinusDivisor(i, n);
      OnStrideTranslate(n, c, i - n);
    } else {
      DivModUnique(i, n, 0, i, i / n, i % n);
    }
  }

  /** Moving both ends of a stride by `n` changes nothing. */
  lemma {:induction false} OnStrideTranslate(n: nat, c: nat, i: nat)
    requires n > 0
    ensures OnStride(n, c + n, i + n) <==> OnStride(n, c, i)
    decreases if c <= i then i - c else 0
  {
    if c + n <= i {
      OnStrideTranslate(n, c + n, i);
    }
  }

  lemma ModMinusDivisor(a: nat, n: nat)
    requires 0 < n <= a
    ensures (a - n) % n == a % n
  {
    var q := (a - n) / n;
    var r := (a - n) % n;
    assert a - n == q * n + r;
    assert a == (q + 1) * n + r;
    assert a == (a / n) * n + a % n;
    DivModUnique(a, n, q + 1, r, a / n, a % n);
  }

  /** The image at index `|s|` goes to column `|s| % n` and nowhere else. */
  lemma MasonryPush(s: seq<GalleryImage>, x: GalleryImage, n: nat)
    requires n > 0
    ensures var c := |s| % n;
      Masonry(s + [x], n) == Masonry(s, n)[c := Masonry(s, n)[c] + [x]]
  {
    var m := |s| % n;
    var pushed := Masonry(s, n)[m := Masonry(s, n)[m] + [x]];
    forall c | 0 <= c < n
      ensures Masonry(s + [x], n)[c] == pushed[c]
    {
      OnStrideMod(n, c, |s|);
      if c <= |s| {
        StridePush(s, x, n, c);
      }
    }
  }

  /** Within a column images keep their input order: the `j`-th image of
      column `c` is input image `c + j * n`, and every such image is there. */
  lemma {:induction false} StrideElements(s: seq<GalleryImage>, n: nat, c: nat, j: nat)
    requires n > 0
    ensures j < |Stride(s, n, c)| <==> c + j * n < |s|
    ensures j < |Stride(s, n, c)| ==> Stride(s, n, c)[j] == s[c + j * n]
    decreases j
  {
    if j > 0 && c < |s| {
      StrideElements(s, n, c + n, j - 1);
      assert c + n + (j - 1) * n == c + j * n;
    } else if j > 0 {
      assert c + j * n >= c;
    }
  }

  /** The image at input index `i` is placed in column `i % n`, at position
      `i / n`. */
  lemma ImagePlacement(s: seq<GalleryImage>, n: nat, i: nat)
    requires n > 0 && i < |s|
    ensures var column := Masonry(s, n)[i % n];
      i / n < |column| && column[i / n] == s[i]
  {
    var c, j := i % n, i / n;
    assert c + j * n == i;
    StrideElements(s, n, c, j);
  }

  /** No column is longer than an earlier one, and sizes differ by at most
      one. */
  lemma {:induction false} ColumnSizes(s: seq<GalleryImage>, n: nat, c1: nat, c2: nat)
    requires n > 0 && c1 <= c2 < c1 + n
    ensures |Stride(s, n, c2)| <= |Stride(s, n, c1)| <= |Stride(s, n, c2)| + 1
    decreases |s| - c1
  {
    if c2 < |s| {
      ColumnSizes(s, n, c1 + n, c2 + n);
    } else if c1 < |s| {
      assert Stride(s, n, c1 + n) == [];
    }
  }

  /** Total number of images across the columns. */
  function TotalSize(columns: seq<seq<GalleryImage>>): nat {
    if columns == [] then 0 else |columns[0]| + TotalSize(columns[1..])
  }

  /** All images across the columns, counted with multiplicity. */
  function AllImages(columns: seq<seq<GalleryImage>>): multiset<GalleryImage> {
    if columns == [] then multiset{} else multiset(columns[0]) + AllImages(columns[1..])
  }

  /** Pushing onto one column adds one image to the total and to the
      multiset of images. */
  lemma {:induction false} PushOntoColumn(columns: seq<seq<GalleryImage>>, c: nat, x: GalleryImage)
    requires c < |columns|
    ensures TotalSize(columns[c := columns[c] + [x]]) == TotalSize(columns) + 1
    ensures AllImages(columns[c := columns[c] + [x]]) == AllImages(columns) + multiset{x}
  {
    var updated := columns[c := columns[c] + [x]];
    if c > 0 {
      PushOntoColumn(columns[1..], c - 1, x);
      assert updated[1..] == columns[1..][c - 1 := columns[c] + [x]];
    } else {
      assert updated[1..] == columns[1..];
    }
  }

  /** No image is lost or duplicated: the columns hold exactly the input
      images; with no input every column is empty. */
  lemma {:induction false} MasonryKeepsImages(s: seq<GalleryImage>, n: nat)
    requires n > 0
    ensures TotalSize(Masonry(s, n)) == |s|
    ensures AllImages(Masonry(s, n)) == multiset(s)
    ensures s == [] ==> forall c | 0 <= c < n :: Masonry(s, n)[c] == []
    decreases |s|
  {
    if s == [] {
      EmptyColumns(n);
    } else {
      var init := s[..|s| - 1];
      MasonryKeepsImages(init, n);
      MasonryPush(init, s[|s| - 1], n);
      assert init + [s[|s| - 1]] == s;
      PushOntoColumn(Masonry(init, n), |init| % n, s[|s| - 1]);
    }
  }

  lemma {:induction false} EmptyColumns(n: nat)
    requires n > 0
    ensures TotalSize(Masonry([], n)) == 0 && AllImages(Masonry([], n)) == multiset{}
  {
    var columns := Masonry([], n);
    assert forall c | 0 <= c < n :: columns[c] == [];
    NoImages(columns);
  }

  lemma {:induction false} NoImages(columns: seq<seq<GalleryImage>>)
    requires forall c | 0 <= c < |columns| :: columns[c] == []
    ensures TotalSize(columns) == 0 && AllImages(columns) == multiset{}
  {
    if columns != [] {
      NoImages(columns[1..]);
    }
  }
}
