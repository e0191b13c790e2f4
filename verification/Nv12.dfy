/** A decoded NV12 image copied out: two planes as they are, or the interleaved one split in two. */
module Nv12 {
  import opened Bytes
  import opened Rows

  /** What the driver maps: the planes it says there are, and the bytes. */
  datatype Image = Image(numPlanes: Word, pitches: seq<Word>, offsets: seq<Word>, data: seq<Byte>) {
    predicate Valid() { |pitches| == |offsets| == 3 }
  }

  datatype PixelFormat = BiPlanar420 | Planar420

  datatype OwnedPlane = OwnedPlane(width: nat, height: nat, pitch: nat, bytes: seq<Byte>) {
    /** The bytes of row `y`, padding included. */
    function RowAt(y: nat): Option<seq<Byte>> {
      if (y + 1) * pitch > |bytes| then None
      else
        assert (y + 1) * pitch == y * pitch + pitch;
        Some(bytes[y * pitch..(y + 1) * pitch])
    }
  }

  /** The splitter of rows refuses a row length of zero by stopping the process. */
  datatype Answer = Copied(planes: seq<OwnedPlane>) | Refused | Panicked

  ghost predicate HoldsPlane(image: Image, plane: nat, count: nat)
    requires image.Valid() && plane < 2
  {
    image.offsets[plane] + image.pitches[plane] * count <= |image.data|
  }

  /** The image holds what it says it does, and a chroma pair for every two columns. */
  ghost predicate Holds(image: Image, width: nat, height: nat)
    requires image.Valid()
  {
    && image.numPlanes >= 2
    && HoldsPlane(image, 0, height) && HoldsPlane(image, 1, HalfUp(height))
    && image.pitches[1] >= 2 * HalfUp(width)
  }

  ghost function PlaneBytes(image: Image, plane: nat, count: nat): seq<Byte>
    requires image.Valid() && plane < 2 && HoldsPlane(image, plane, count)
  {
    image.data[image.offsets[plane]..image.offsets[plane] + image.pitches[plane] * count]
  }

  /** Two rows taken alternately. */
  ghost function Interleave(a: seq<Byte>, b: seq<Byte>): (s: seq<Byte>)
    requires |a| == |b|
    ensures |s| == 2 * |a|
    ensures forall k :: 0 <= k < |a| ==> s[2 * k] == a[k] && s[2 * k + 1] == b[k]
  {
    var s := seq(2 * |a|, i requires 0 <= i < 2 * |a| => if i % 2 == 0 then a[i / 2] else b[i / 2]);
    assert forall k :: 0 <= k < |a| ==> s[2 * k] == a[k] && s[2 * k + 1] == b[k] by {
      forall k | 0 <= k < |a| ensures s[2 * k] == a[k] && s[2 * k + 1] == b[k] {
        assert (2 * k) / 2 == k && (2 * k + 1) / 2 == k;
      }
    }
    s
  }

  /** Nothing is lost: what two rows interleave to says what the two rows were. */
  lemma InterleaveIsLossless(a: seq<Byte>, b: seq<Byte>, c: seq<Byte>, d: seq<Byte>)
    requires |a| == |b| && |c| == |d| && Interleave(a, b) == Interleave(c, d)
    ensures a == c && b == d
  {
    assert |a| == |c| by {
      assert |Interleave(a, b)| == |Interleave(c, d)|;
    }
    forall k | 0 <= k < |a| ensures a[k] == c[k] && b[k] == d[k] {
      assert Interleave(a, b)[2 * k] == Interleave(c, d)[2 * k];
      assert Interleave(a, b)[2 * k + 1] == Interleave(c, d)[2 * k + 1];
    }
  }

  /** The first `rows` chroma rows split: interleaved again they are the image's, to the last pair. */
  ghost predicate Split(cb: seq<Byte>, cr: seq<Byte>, image: Image, width: nat, rows: nat)
    requires image.Valid() && HoldsPlane(image, 1, rows) && image.pitches[1] >= 2 * HalfUp(width)
  {
    var (pitch, to, from) := (HalfUp(width), Grid(0, HalfUp(width)), Grid(image.offsets[1], image.pitches[1]));
    && |cb| == |cr| == rows * pitch
    && to.FitAll(|cb|, pitch, rows) && from.FitAll(|image.data|, 2 * pitch, rows)
    && forall y :: 0 <= y < rows ==>
         Interleave(to.Bytes(cb, pitch, y), to.Bytes(cr, pitch, y)) == from.Bytes(image.data, 2 * pitch, y)
  }

  /** One chroma row, a pair at a time. */
  method SplitRow(row: seq<Byte>) returns (cb: seq<Byte>, cr: seq<Byte>)
    requires |row| % 2 == 0
    ensures |cb| == |cr| == |row| / 2 && Interleave(cb, cr) == row
  {
    hide Interleave;
    cb, cr := [], [];
    var k := 0;
    while k < |row| / 2
      invariant k <= |row| / 2 && |cb| == |cr| == k
      invariant forall j :: 0 <= j < k ==> cb[j] == row[2 * j] && cr[j] == row[2 * j + 1]
    {
      cb, cr := cb + [row[2 * k]], cr + [row[2 * k + 1]];
      k := k + 1;
    }
    InterleavedIs(row, cb, cr);
  }

  lemma InterleavedIs(row: seq<Byte>, cb: seq<Byte>, cr: seq<Byte>)
    requires |cb| == |cr| && |row| == 2 * |cb|
    requires forall j :: 0 <= j < |cb| ==> cb[j] == row[2 * j] && cr[j] == row[2 * j + 1]
    ensures Interleave(cb, cr) == row
  {
    hide Interleave;
    var s := Interleave(cb, cr);
    forall i | 0 <= i < |row| ensures s[i] == row[i] {
      var k := i / 2;
      assert s[2 * k] == cb[k] && s[2 * k + 1] == cr[k];
      if i % 2 == 0 {
        assert i == 2 * k;
      } else {
        assert i == 2 * k + 1;
      }
    }
  }

  lemma SplitNext(cb: seq<Byte>, cr: seq<Byte>, image: Image, width: nat, rows: nat, a: seq<Byte>, b: seq<Byte>)
    requires image.Valid() && HoldsPlane(image, 1, rows + 1) && image.pitches[1] >= 2 * HalfUp(width)
    requires HoldsPlane(image, 1, rows) && Split(cb, cr, image, width, rows)
    requires |a| == |b| == HalfUp(width)
    requires var from := Grid(image.offsets[1], image.pitches[1]);
             from.Fits(|image.data|, 2 * HalfUp(width), rows)
             && Interleave(a, b) == from.Bytes(image.data, 2 * HalfUp(width), rows)
    ensures Split(cb + a, cr + b, image, width, rows + 1)
  {
    var (pitch, to, from) := (HalfUp(width), Grid(0, HalfUp(width)), Grid(image.offsets[1], image.pitches[1]));
    hide Interleave, HalfUp;
    Distribute(rows, 1, pitch);
    assert to.Row(rows) == |cb| == |cr| && |cb + a| == |cr + b| == (rows + 1) * pitch;
    hide Grid.Row;
    forall y | 0 <= y < rows + 1
      ensures to.Fits(|cb + a|, pitch, y)
      ensures Interleave(to.Bytes(cb + a, pitch, y), to.Bytes(cr + b, pitch, y)) == from.Bytes(image.data, 2 * pitch, y)
    {
      if y < rows {
        to.RowsApart(y, rows);
        assert to.Bytes(cb + a, pitch, y) == to.Bytes(cb, pitch, y);
        assert to.Bytes(cr + b, pitch, y) == to.Bytes(cr, pitch, y);
      } else {
        assert to.Bytes(cb + a, pitch, y) == a && to.Bytes(cr + b, pitch, y) == b;
      }
    }
  }

  lemma RowInside(image: Image, width: nat, rows: nat, y: nat)
    requires image.Valid() && HoldsPlane(image, 1, rows) && image.pitches[1] >= 2 * HalfUp(width) && y < rows
    ensures Grid(image.offsets[1], image.pitches[1]).Fits(|image.data|, 2 * HalfUp(width), y)
    ensures HoldsPlane(image, 1, y) && HoldsPlane(image, 1, y + 1)
  {
    var p := image.pitches[1];
    hide HalfUp;
    Distribute(rows - y - 1, y + 1, p);
    Distribute(y, 1, p);
  }

  /** The chroma rows, each split into its two planes. */
  method SplitChroma(image: Image, width: Word, rows: nat) returns (cb: seq<Byte>, cr: seq<Byte>)
    requires image.Valid() && HoldsPlane(image, 1, rows) && image.pitches[1] >= 2 * HalfUp(width)
    ensures Split(cb, cr, image, width, rows)
  {
    hide Split, Interleave, HoldsPlane;
    cb, cr := [], [];
    SplitNone(image, width, rows);
    for y := 0 to rows
      invariant HoldsPlane(image, 1, y) && Split(cb, cr, image, width, y)
    {
      RowInside(image, width, rows, y);
      var at := Grid(image.offsets[1], image.pitches[1]).Row(y);
      var a, b := SplitRow(image.data[at..at + 2 * HalfUp(width)]);
      SplitNext(cb, cr, image, width, y, a, b);
      cb, cr := cb + a, cr + b;
    }
  }

  lemma SplitNone(image: Image, width: nat, rows: nat)
    requires image.Valid() && HoldsPlane(image, 1, rows) && image.pitches[1] >= 2 * HalfUp(width)
    ensures HoldsPlane(image, 1, 0) && Split([], [], image, width, 0)
  {
    assert image.pitches[1] * rows >= 0;
  }

  /** A plane's rows, if the mapped bytes hold them. */
  method RowsOf(image: Image, plane: nat, count: Word) returns (r: Option<(Word, seq<Byte>)>)
    requires image.Valid() && plane < 2
    ensures r.Some? <==> HoldsPlane(image, plane, count)
    ensures r.Some? ==> r.value == (image.pitches[plane], PlaneBytes(image, plane, count))
  {
    var (pitch, start) := (image.pitches[plane], image.offsets[plane]);
    if start + pitch * count > |image.data| {
      return None;
    }
    r := Some((pitch, image.data[start..start + pitch * count]));
  }

  /** Copy a decoded image out, in the layout asked for: refused exactly when the image does not
      hold the picture, and otherwise exact to the byte. */
  method FromNv12(image: Image, width: Word, height: Word, pixels: PixelFormat) returns (r: Answer)
    requires image.Valid()
    ensures r.Refused? <==>
            || image.numPlanes < 2
            || image.offsets[0] + image.pitches[0] * height > |image.data|
            || image.offsets[1] + image.pitches[1] * HalfUp(height) > |image.data|
            || image.pitches[1] < 2 * HalfUp(width)
    ensures r.Refused? <==> !Holds(image, width, height)
    ensures r.Panicked? <==> Holds(image, width, height) && pixels == Planar420 && image.pitches[1] == 0
    ensures r.Copied? ==>
              && r.planes != []
              && r.planes[0] == OwnedPlane(width, height, image.pitches[0], PlaneBytes(image, 0, height))
              && match pixels
                 case BiPlanar420 =>
                   r.planes[1..] == [OwnedPlane(HalfUp(width), HalfUp(height), image.pitches[1],
                                                PlaneBytes(image, 1, HalfUp(height)))]
                 case Planar420 =>
                   && |r.planes| == 3
                   && (forall p :: 1 <= p < 3 ==>
                         r.planes[p] == OwnedPlane(HalfUp(width), HalfUp(height), HalfUp(width), r.planes[p].bytes))
                   && Split(r.planes[1].bytes, r.planes[2].bytes, image, width, HalfUp(height))
  {
    hide Split, Interleave;
    if image.numPlanes < 2 {
      return Refused;
    }
    var (chromaWidth, chromaHeight) := (HalfUp(width), HalfUp(height));
    var luma := RowsOf(image, 0, height);
    if luma.None? {
      return Refused;
    }
    var chroma := RowsOf(image, 1, chromaHeight);
    if chroma.None? {
      return Refused;
    }
    if chroma.value.0 < 2 * chromaWidth {
      return Refused;
    }
    var planes := [OwnedPlane(width, height, luma.value.0, luma.value.1)];
    match pixels {
      case BiPlanar420 =>
        planes := planes + [OwnedPlane(chromaWidth, chromaHeight, chroma.value.0, chroma.value.1)];
      case Planar420 =>
        if chroma.value.0 == 0 {
          return Panicked;
        }
        var cb, cr := SplitChroma(image, width, chromaHeight);
        planes := planes + [OwnedPlane(chromaWidth, chromaHeight, chromaWidth, cb),
                            OwnedPlane(chromaWidth, chromaHeight, chromaWidth, cr)];
    }
    return Copied(planes);
  }

  /** Chroma pixel `x` of row `y` is a pair of the image's bytes: the first in one plane, the second in
      the other. */
  lemma SplitPixel(cb: seq<Byte>, cr: seq<Byte>, image: Image, width: nat, rows: nat, x: nat, y: nat)
    requires image.Valid() && HoldsPlane(image, 1, rows) && image.pitches[1] >= 2 * HalfUp(width)
    requires Split(cb, cr, image, width, rows) && y < rows && x < HalfUp(width)
    ensures var (at, from) := (y * HalfUp(width) + x, image.offsets[1] + y * image.pitches[1] + 2 * x);
            && at < |cb| == |cr| && from + 1 < |image.data|
            && cb[at] == image.data[from] && cr[at] == image.data[from + 1]
  {
    hide Interleave, HalfUp;
    var (pitch, to, from) := (HalfUp(width), Grid(0, HalfUp(width)), Grid(image.offsets[1], image.pitches[1]));
    assert to.Fits(|cb|, pitch, y) && from.Fits(|image.data|, 2 * pitch, y);
    var (a, b) := (to.Bytes(cb, pitch, y), to.Bytes(cr, pitch, y));
    assert Interleave(a, b) == from.Bytes(image.data, 2 * pitch, y);
    assert Interleave(a, b)[2 * x] == a[x] && Interleave(a, b)[2 * x + 1] == b[x];
  }

  /** The process is stopped only over a picture with no columns. */
  lemma PanicsOnlyWithoutColumns(image: Image, width: nat, height: nat)
    requires image.Valid() && Holds(image, width, height)
    ensures image.pitches[1] == 0 ==> width == 0
  {
  }

  /** It can be: an image of no columns whose chroma rows are said to be empty. */
  lemma PanicsOnAnEmptyImage()
    ensures var image := Image(2, [0, 0, 0], [0, 0, 0], []);
            image.Valid() && Holds(image, 0, 0) && image.pitches[1] == 0
  {
  }

  /** A plane of exactly `height` rows has row `y` exactly up to its last, where rows have any
      bytes at all. */
  lemma RowsToTheLast(p: OwnedPlane, y: nat)
    requires |p.bytes| == p.pitch * p.height
    ensures p.RowAt(y).Some? <==> y < p.height || p.pitch == 0
    ensures p.RowAt(y).Some? && y < p.height ==>
              Grid(0, p.pitch).Fits(|p.bytes|, p.pitch, y)
              && p.RowAt(y).value == Grid(0, p.pitch).Bytes(p.bytes, p.pitch, y)
  {
    ScaledOrder(y, p.height, p.pitch);
    assert (y + 1) * p.pitch == y * p.pitch + p.pitch;
  }

  lemma ScaledOrder(y: nat, height: nat, pitch: nat)
    ensures (y + 1) * pitch <= pitch * height <==> y < height || pitch == 0
  {
    if y < height {
      Distribute(height - y - 1, y + 1, pitch);
    } else {
      Distribute(y - height, height, pitch);
      Distribute(y, 1, pitch);
    }
  }

  lemma Distribute(a: nat, b: nat, k: nat)
    ensures (a + b) * k == a * k + b * k && k * (a + b) == k * a + k * b && k * a == a * k && a * k >= 0
  {
  }
}
