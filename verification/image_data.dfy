/** Filters applied to a whole `ImageData` buffer: the bytes of every pixel
    in row order, four per pixel (red, green, blue, alpha). Each filter
    walks the buffer in steps of four and rewrites the three colour bytes
    of each pixel from that pixel alone.
 */
module ImageData {
  import opened Channel
  import opened PixelFilters

  /** A pixel buffer: whole RGBA quadruples of bytes. */
  predicate ValidBuffer(data: seq<int>) {
    |data| % 4 == 0 && forall i | 0 <= i < |data| :: IsByte(data[i])
  }

  /** The `k`-th pixel of a buffer. */
  function PixelAt(data: seq<int>, k: int): (p: Pixel)
    requires ValidBuffer(data) && 0 <= k < |data| / 4
    ensures ValidPixel(p)
  {
    Pixel(data[4 * k], data[4 * k + 1], data[4 * k + 2], data[4 * k + 3])
  }

  function Bytes(p: Pixel): seq<int> {
    [p.r, p.g, p.b, p.a]
  }

  /** Dropping the first pixel shifts every later pixel down by one. */
  lemma DropFirstPixel(data: seq<int>)
    requires ValidBuffer(data) && |data| >= 4
    ensures ValidBuffer(data[4..])
    ensures forall k | 1 <= k < |data| / 4 :: PixelAt(data, k) == PixelAt(data[4..], k - 1)
  {
    forall k | 1 <= k < |data| / 4
      ensures PixelAt(data, k) == PixelAt(data[4..], k - 1)
    {
      assert data[4..][4 * (k - 1)] == data[4 * k];
    }
  }

  /** Two buffers with the same pixels are the same buffer. */
  lemma {:induction false} SamePixels(a: seq<int>, b: seq<int>)
    requires ValidBuffer(a) && ValidBuffer(b) && |a| == |b|
    requires forall k | 0 <= k < |a| / 4 :: PixelAt(a, k) == PixelAt(b, k)
    ensures a == b
  {
    forall i | 0 <= i < |a|
      ensures a[i] == b[i]
    {
      var k := i / 4;
      assert PixelAt(a, k) == PixelAt(b, k);
      assert i == 4 * k + i % 4;
    }
  }

  /** A per-pixel operation: it keeps pixels valid and never writes alpha. */
  ghost predicate KeepsAlpha(m: Pixel --> Pixel) {
    forall p {:trigger m.requires(p)} {:trigger m(p)} | ValidPixel(p) :: m.requires(p) && ValidPixel(m(p)) && m(p).a == p.a
  }

  /** A per-pixel operation over the whole buffer. */
  function MapPixels(m: Pixel --> Pixel, data: seq<int>): (out: seq<int>)
    requires KeepsAlpha(m) && ValidBuffer(data)
    ensures ValidBuffer(out) && |out| == |data|
    ensures forall k | 0 <= k < |data| / 4 :: PixelAt(out, k) == m(PixelAt(data, k))
    decreases |data|
  {
    if |data| == 0 then []
    else
      DropFirstPixel(data);
      var rest := MapPixels(m, data[4..]);
      var out := Bytes(m(PixelAt(data, 0))) + rest;
      assert out[4..] == rest;
      DropFirstPixel(out);
      out
  }

  /** The per-pixel operation of one filter. */
  function FilterFn(f: Filter): (m: Pixel --> Pixel)
    ensures KeepsAlpha(m)
  {
    (p: Pixel) requires ValidPixel(p) => FilterPixel(f, p)
  }

  /** One filter over the whole buffer. */
  function Apply(f: Filter, data: seq<int>): (out: seq<int>)
    requires ValidBuffer(data)
    ensures ValidBuffer(out) && |out| == |data|
    ensures forall k | 0 <= k < |data| / 4 :: PixelAt(out, k) == FilterPixel(f, PixelAt(data, k))
  {
    MapPixels(FilterFn(f), data)
  }

  /** A per-pixel operation never changes the alpha byte of any pixel. */
  lemma {:induction false} MapKeepsAlpha(m: Pixel --> Pixel, data: seq<int>)
    requires KeepsAlpha(m) && ValidBuffer(data)
    ensures forall i | 0 <= i < |data| && i % 4 == 3 :: MapPixels(m, data)[i] == data[i]
  {
    var out := MapPixels(m, data);
    forall i | 0 <= i < |data| && i % 4 == 3
      ensures out[i] == data[i]
    {
      var k := i / 4;
      assert i == 4 * k + 3;
      assert PixelAt(out, k).a == PixelAt(data, k).a;
    }
  }

  /** The filters never write the alpha byte of any pixel. */
  lemma {:induction false} AlphaUntouched(f: Filter, data: seq<int>)
    requires ValidBuffer(data)
    ensures forall i | 0 <= i < |data| && i % 4 == 3 :: Apply(f, data)[i] == data[i]
  {
    MapKeepsAlpha(FilterFn(f), data);
  }

  /** The three stores `data[i] = …; data[i + 1] = …; data[i + 2] = …` of
      one loop iteration; the alpha byte `data[i + 3]` keeps its value. */
  function StoreColour(data: seq<int>, i: int, q: Pixel): (out: seq<int>)
    requires ValidBuffer(data) && ValidPixel(q) && i % 4 == 0 && 0 <= i && i + 4 <= |data|
    requires q.a == data[i + 3]
    ensures ValidBuffer(out) && |out| == |data|
    ensures PixelAt(out, i / 4) == q
    ensures forall k | 0 <= k < |data| / 4 && k != i / 4 :: PixelAt(out, k) == PixelAt(data, k)
    ensures out[i + 4..] == data[i + 4..]
  {
    var out := data[i := q.r][i + 1 := q.g][i + 2 := q.b];
    assert forall k | 0 <= k < |data| / 4 && k != i / 4 :: 4 * k + 3 < i || 4 * k >= i + 4;
    out
  }

  /** The filter loop as the source writes it: one pass in steps of four,
      rewriting bytes `i`, `i + 1` and `i + 2` in place from the pixel's
      own bytes. */
  method MapInPlace(m: Pixel --> Pixel, data: seq<int>) returns (out: seq<int>)
    requires KeepsAlpha(m) && ValidBuffer(data)
    ensures out == MapPixels(m, data)
  {
    out := data;
    var i := 0;
    while i < |out|
      invariant 0 <= i <= |data| && i % 4 == 0 && |out| == |data|
      invariant ValidBuffer(out)
      invariant forall k | 0 <= k < i / 4 :: PixelAt(out, k) == m(PixelAt(data, k))
      invariant out[i..] == data[i..]
    {
      assert PixelAt(out, i / 4) == PixelAt(data, i / 4) by {
        assert out[i..][0..4] == data[i..][0..4];
      }
      var q := m(PixelAt(out, i / 4));
      out := StoreColour(out, i, q);
      i := i + 4;
    }
    SamePixels(out, MapPixels(m, data));
  }

  /** One filter run by the in-place loop. */
  method FilterInPlace(f: Filter, data: seq<int>) returns (out: seq<int>)
    requires ValidBuffer(data)
    ensures out == Apply(f, data)
  {
    out := MapInPlace(FilterFn(f), data);
  }

  ghost predicate AllKeepAlpha(ms: seq<Pixel --> Pixel>) {
    forall i | 0 <= i < |ms| :: KeepsAlpha(ms[i])
  }

  /** Per-pixel operations composed, first one first. */
  function Compose(ms: seq<Pixel --> Pixel>, p: Pixel): (q: Pixel)
    requires AllKeepAlpha(ms) && ValidPixel(p)
    ensures ValidPixel(q) && q.a == p.a
    decreases |ms|
  {
    if ms == [] then p else Compose(ms[1..], ms[0](p))
  }

  /** Several passes over the buffer, one per operation, in order. */
  function MapAll(ms: seq<Pixel --> Pixel>, data: seq<int>): (out: seq<int>)
    requires AllKeepAlpha(ms) && ValidBuffer(data)
    ensures ValidBuffer(out) && |out| == |data|
    ensures forall k | 0 <= k < |data| / 4 :: PixelAt(out, k) == Compose(ms, PixelAt(data, k))
    decreases |ms|
  {
    if ms == [] then data else MapAll(ms[1..], MapPixels(ms[0], data))
  }

  /** Running two lists of passes back to back is running their
      concatenation. */
  lemma {:induction false} MapAllConcat(ms: seq<Pixel --> Pixel>, ns: seq<Pixel --> Pixel>, data: seq<int>)
    requires AllKeepAlpha(ms) && AllKeepAlpha(ns) && ValidBuffer(data)
    ensures AllKeepAlpha(ms + ns)
    ensures MapAll(ms + ns, data) == MapAll(ns, MapAll(ms, data))
    decreases |ms|
  {
    assert AllKeepAlpha(ms + ns) by {
      forall i | 0 <= i < |ms + ns| ensures KeepsAlpha((ms + ns)[i]) {
        if i < |ms| { assert (ms + ns)[i] == ms[i]; } else { assert (ms + ns)[i] == ns[i - |ms|]; }
      }
    }
    if ms == [] {
      assert ms + ns == ns;
    } else {
      var d1 := MapPixels(ms[0], data);
      assert (ms + ns)[0] == ms[0] && (ms + ns)[1..] == ms[1..] + ns;
      assert MapAll(ms + ns, data) == MapAll(ms[1..] + ns, d1);
      assert MapAll(ms, data) == MapAll(ms[1..], d1);
      MapAllConcat(ms[1..], ns, d1);
    }
  }

  /** On a one-pixel buffer the passes are the composed operation. */
  lemma {:induction false} MapAllOnePixel(ms: seq<Pixel --> Pixel>, p: Pixel)
    requires AllKeepAlpha(ms) && ValidPixel(p)
    ensures ValidBuffer(Bytes(p))
    ensures MapAll(ms, Bytes(p)) == Bytes(Compose(ms, p))
  {
    var data := Bytes(p);
    assert ValidBuffer(data) && PixelAt(data, 0) == p;
    var out := MapAll(ms, data);
    var expected := Bytes(Compose(ms, p));
    assert ValidBuffer(expected) && PixelAt(expected, 0) == PixelAt(out, 0);
    SamePixels(out, expected);
  }

  /** The per-pixel operations of a list of filters. */
  function FilterFns(fs: seq<Filter>): (ms: seq<Pixel --> Pixel>)
    ensures |ms| == |fs| && AllKeepAlpha(ms)
    ensures forall i | 0 <= i < |fs| :: ms[i] == FilterFn(fs[i])
  {
    seq(|fs|, i requires 0 <= i < |fs| => FilterFn(fs[i]))
  }

  /** Composing the filters' operations is running the filters in turn. */
  lemma {:induction false} ComposeFilters(fs: seq<Filter>, p: Pixel)
    requires ValidPixel(p)
    ensures Compose(FilterFns(fs), p) == FilterAllPixel(fs, p)
    decreases |fs|
  {
    if fs != [] {
      var ms := FilterFns(fs);
      assert ms[1..] == FilterFns(fs[1..]);
      assert ms[0](p) == FilterPixel(fs[0], p);
      ComposeFilters(fs[1..], ms[0](p));
    }
  }

  /** A sequence of filters over the buffer, one pass each, in order. */
  function ApplyAll(fs: seq<Filter>, data: seq<int>): (out: seq<int>)
    requires ValidBuffer(data)
    ensures ValidBuffer(out) && |out| == |data|
    ensures forall k | 0 <= k < |data| / 4 :: PixelAt(out, k) == FilterAllPixel(fs, PixelAt(data, k))
  {
    var out := MapAll(FilterFns(fs), data);
    assert forall k | 0 <= k < |data| / 4 :: PixelAt(out, k) == FilterAllPixel(fs, PixelAt(data, k)) by {
      forall k | 0 <= k < |data| / 4 ensures PixelAt(out, k) == FilterAllPixel(fs, PixelAt(data, k)) {
        ComposeFilters(fs, PixelAt(data, k));
      }
    }
    out
  }

  /** Running two filter lists back to back is running their concatenation. */
  lemma {:induction false} ApplyAllConcat(fs: seq<Filter>, gs: seq<Filter>, data: seq<int>)
    requires ValidBuffer(data)
    ensures ApplyAll(fs + gs, data) == ApplyAll(gs, ApplyAll(fs, data))
  {
    assert FilterFns(fs + gs) == FilterFns(fs) + FilterFns(gs);
    MapAllConcat(FilterFns(fs), FilterFns(gs), data);
  }

  /** Grayscale twice is grayscale once. */
  lemma {:induction false} GrayscaleIdempotent(data: seq<int>)
    requires ValidBuffer(data)
    ensures Apply(Grayscale, Apply(Grayscale, data)) == Apply(Grayscale, data)
  {
    var once := Apply(Grayscale, data);
    var twice := Apply(Grayscale, once);
    forall k | 0 <= k < |data| / 4
      ensures PixelAt(twice, k) == PixelAt(once, k)
    {
      assert IsGray(PixelAt(once, k));
    }
    SamePixels(twice, once);
  }

  /** The neutral adjustment values (contrast 50, not the slider default
      100) leave every buffer unchanged. */
  lemma {:induction false} NeutralAdjustmentsBuffer(data: seq<int>)
    requires ValidBuffer(data)
    ensures ApplyAll(AdjustmentFilters(100, 50, 100, 0), data) == data
  {
    var out := ApplyAll(AdjustmentFilters(100, 50, 100, 0), data);
    forall k | 0 <= k < |data| / 4
      ensures PixelAt(out, k) == PixelAt(data, k)
    {
      NeutralAdjustments(PixelAt(data, k));
    }
    SamePixels(out, data);
  }

  /** With the slider defaults (brightness, contrast and saturation 100,
      hue 0), a one-pixel mid-gray image darkens from 100 to 72. */
  lemma DefaultAdjustmentsChangeGray(brightness: int, contrast: int, saturation: int, hue: int, p: Pixel)
    requires brightness == contrast == saturation == 100 && hue == 0
    requires p == Pixel(100, 100, 100, 255)
    ensures ValidBuffer(Bytes(p))
    ensures ApplyAll(AdjustmentFilters(brightness, contrast, saturation, hue), Bytes(p)) == Bytes(Pixel(72, 72, 72, 255))
  {
    var fs := AdjustmentFilters(brightness, contrast, saturation, hue);
    MapAllOnePixel(FilterFns(fs), p);
    ComposeFilters(fs, p);
    DefaultAdjustmentsDarkenGray(p);
  }
}
