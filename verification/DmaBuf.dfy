/** Storage named by a descriptor: the one check a layout passes before anything reads under it,
    and the loops that read and write rows trusting it. */
module DmaBuf {
  import opened Bytes
  import opened Layouts
  import opened Rows

  // ------------------------------------------------------------------ the layout check

  /** A four-character code, as the format tables spell one. */
  function Code(a: char, b: char, c: char, d: char): nat {
    a as nat + 0x100 * (b as nat) + 0x1_0000 * (c as nat) + 0x100_0000 * (d as nat)
  }

  /** The bytes in one element of each plane, for a code whose planes are known. */
  function PlaneRule(fourcc: nat): (r: Option<seq<nat>>)
    ensures r.Some? ==> 1 <= |r.value| <= 2 && forall p :: 0 <= p < |r.value| ==> 1 <= r.value[p] <= 8
  {
    if fourcc == Code('R', '8', ' ', ' ') then Some([1])
    else if fourcc == Code('R', 'G', '1', '6') then Some([2])
    else if fourcc in {Code('A', 'R', '2', '4'), Code('X', 'R', '2', '4'),
                       Code('A', 'B', '2', '4'), Code('X', 'B', '2', '4')} then Some([4])
    else if fourcc in {Code('A', 'R', '3', '0'), Code('X', 'R', '3', '0'),
                       Code('A', 'B', '3', '0'), Code('X', 'B', '3', '0')} then Some([4])
    else if fourcc in {Code('A', 'B', '4', 'H'), Code('X', 'B', '4', 'H'),
                       Code('A', 'B', '4', '8'), Code('X', 'B', '4', '8')} then Some([8])
    else if fourcc == Code('N', 'V', '1', '2') then Some([1, 2])
    else None
  }

  /** A code's bytes in memory are its four characters, in order. */
  lemma CodeIsItsCharacters(a: char, b: char, c: char, d: char)
    requires a as int < 256 && b as int < 256 && c as int < 256 && d as int < 256
    ensures Le(Code(a, b, c, d), 4) == [a as int, b as int, c as int, d as int]
  {
    var n := Code(a, b, c, d);
    LeFour(n);
    assert n / 256 == b as nat + 256 * (c as nat) + 65536 * (d as nat);
  }

  lemma LeFour(n: nat)
    ensures Le(n, 4) == [n % 256, n / 256 % 256, n / 256 / 256 % 256, n / 256 / 256 / 256 % 256]
  {
    assert Le(n / 256, 3) == [n / 256 % 256] + Le(n / 256 / 256, 2);
  }

  /** The codes whose planes are known, as numbers, and the bytes per element of each. */
  lemma FormatsByNumber(fourcc: nat)
    ensures PlaneRule(fourcc)
         == if fourcc == 0x2020_3852 then Some([1])
            else if fourcc == 0x3631_4752 then Some([2])
            else if fourcc in {0x3432_5241, 0x3432_5258, 0x3432_4241, 0x3432_4258,
                               0x3033_5241, 0x3033_5258, 0x3033_4241, 0x3033_4258} then Some([4])
            else if fourcc in {0x4834_4241, 0x4834_4258, 0x3834_4241, 0x3834_4258} then Some([8])
            else if fourcc == 0x3231_564e then Some([1, 2])
            else None
  {
  }

  /** Every plane past the first is half-resolution. */
  function Halving(plane: nat): nat { if plane > 0 then 2 else 1 }

  function RoundedUp(n: nat, plane: nat): nat { (n + Halving(plane) - 1) / Halving(plane) }

  function RoundedDown(n: nat, plane: nat): nat { n / Halving(plane) }

  /** The first plane is not halved; every other is, an odd extent up for what the check bounds and
      down for what is copied. */
  lemma RoundsToHalf(n: nat, plane: nat)
    ensures plane == 0 ==> RoundedUp(n, plane) == RoundedDown(n, plane) == n
    ensures plane > 0 ==> 2 * RoundedUp(n, plane) in {n, n + 1} && 2 * RoundedDown(n, plane) in {n - 1, n}
  {
  }

  /** The bytes a row of one plane must hold. */
  function Tight(layout: Layout, rule: seq<nat>, plane: nat): nat
    requires plane < |rule|
  {
    RoundedUp(layout.width, plane) * rule[plane]
  }

  function End(layout: Layout, plane: nat): nat
    requires plane < |layout.planes|
  {
    layout.planes[plane].pitch * RoundedUp(layout.height, plane) + layout.planes[plane].offset
  }

  /** One plane of a buffer of `size` bytes: its rows hold their pixels, and its last row ends
      inside the buffer, a subsampled plane rounded up. */
  predicate PlaneBounded(size: nat, layout: Layout, rule: seq<nat>, plane: nat)
    requires plane < |rule| == |layout.planes|
  {
    && Tight(layout, rule, plane) <= U32_MAX
    && Tight(layout, rule, plane) <= layout.planes[plane].pitch
    && End(layout, plane) <= size
  }

  predicate AllowedModifier(m: nat) { m == MOD_LINEAR || m == MOD_INVALID }

  predicate HasExtent(layout: Layout) { layout.width != 0 && layout.height != 0 }

  /** What the check is for: every plane lies in the buffer. */
  ghost predicate Bounded(size: nat, layout: Layout) {
    && HasExtent(layout) && AllowedModifier(layout.modifier)
    && PlaneRule(layout.fourcc).Some?
    && var rule := PlaneRule(layout.fourcc).value;
       |layout.planes| == |rule| && forall p :: 0 <= p < |rule| ==> PlaneBounded(size, layout, rule, p)
  }

  lemma PlaneBoundedMeans(size: nat, layout: Layout, rule: seq<nat>, plane: nat, w: nat, h: nat)
    requires plane < |rule| == |layout.planes|
    requires if plane == 0 then w == layout.width && h == layout.height
             else w == HalfUp(layout.width) && h == HalfUp(layout.height)
    ensures PlaneBounded(size, layout, rule, plane) <==>
            && w * rule[plane] <= 0xffff_ffff && w * rule[plane] <= layout.planes[plane].pitch
            && layout.planes[plane].pitch * h + layout.planes[plane].offset <= size
  {
    assert w == RoundedUp(layout.width, plane) && h == RoundedUp(layout.height, plane);
    hide RoundedUp;
  }

  /** In numbers: a picture with an extent, a format that is known, not tiled, and every plane's rows
      holding its pixels and ending inside the buffer, a chroma plane's at half the extent rounded up. */
  lemma BoundedMeans(size: nat, layout: Layout)
    ensures Bounded(size, layout) <==>
            && layout.width > 0 && layout.height > 0 && layout.modifier in {0, 0x00ff_ffff_ffff_ffff}
            && PlaneRule(layout.fourcc).Some? && |layout.planes| == |PlaneRule(layout.fourcc).value|
            && forall p :: 0 <= p < |layout.planes| ==>
                 var rule := PlaneRule(layout.fourcc).value;
                 var (w, h) := if p == 0 then (layout.width, layout.height)
                               else (HalfUp(layout.width), HalfUp(layout.height));
                 && w * rule[p] <= 0xffff_ffff && w * rule[p] <= layout.planes[p].pitch
                 && layout.planes[p].pitch * h + layout.planes[p].offset <= size
  {
    hide PlaneRule, PlaneBounded, HalfUp;
    if PlaneRule(layout.fourcc).Some? && |layout.planes| == |PlaneRule(layout.fourcc).value| {
      var rule := PlaneRule(layout.fourcc).value;
      forall p | 0 <= p < |rule|
        ensures PlaneBounded(size, layout, rule, p) <==>
                var (w, h) := if p == 0 then (layout.width, layout.height)
                              else (HalfUp(layout.width), HalfUp(layout.height));
                && w * rule[p] <= 0xffff_ffff && w * rule[p] <= layout.planes[p].pitch
                && layout.planes[p].pitch * h + layout.planes[p].offset <= size
      {
        PlaneBoundedMeans(size, layout, rule, p, if p == 0 then layout.width else HalfUp(layout.width),
                          if p == 0 then layout.height else HalfUp(layout.height));
      }
    }
  }

  /** Nothing is wrong with the layout before `plane`. */
  ghost predicate BoundedBefore(size: nat, layout: Layout, plane: nat) {
    && HasExtent(layout) && AllowedModifier(layout.modifier)
    && PlaneRule(layout.fourcc).Some?
    && var rule := PlaneRule(layout.fourcc).value;
       plane < |rule| == |layout.planes| && forall p :: 0 <= p < plane ==> PlaneBounded(size, layout, rule, p)
  }

  /** What each refusal says of the layout: the first thing wrong with it, and nothing before. */
  ghost predicate Blames(size: nat, layout: Layout, e: BadLayout) {
    match e
    case Extent(w, h) =>
      && w == layout.width && h == layout.height
      && (!HasExtent(layout)
          || exists plane :: BoundedBefore(size, layout, plane)
                             && Tight(layout, PlaneRule(layout.fourcc).value, plane) > U32_MAX)
    case Modifier(m) => HasExtent(layout) && m == layout.modifier && !AllowedModifier(m)
    case Fourcc(c) =>
      && HasExtent(layout) && AllowedModifier(layout.modifier)
      && c == layout.fourcc && PlaneRule(c).None?
    case PlaneCount(said, wants) =>
      && HasExtent(layout) && AllowedModifier(layout.modifier)
      && PlaneRule(layout.fourcc).Some? && wants == |PlaneRule(layout.fourcc).value|
      && said == |layout.planes| != wants
    case Pitch(plane, pitch, tight) =>
      && BoundedBefore(size, layout, plane) && pitch == layout.planes[plane].pitch
      && tight == Tight(layout, PlaneRule(layout.fourcc).value, plane) && pitch < tight <= U32_MAX
    case Overrun(plane, end, s) =>
      && BoundedBefore(size, layout, plane) && s == size && End(layout, plane) > size
      && end == Min(End(layout, plane), U64_MAX)
      && Tight(layout, PlaneRule(layout.fourcc).value, plane) <= layout.planes[plane].pitch
    case NoDescriptor => Bounded(size, layout)
    case TooManyPlanes(_, _) => false
  }

  lemma OnePlaneOut(size: nat, layout: Layout, plane: nat)
    requires BoundedBefore(size, layout, plane)
    requires !PlaneBounded(size, layout, PlaneRule(layout.fourcc).value, plane)
    ensures !Bounded(size, layout)
  {
  }

  /** Read a buffer of the kernel's `size` under a layout someone else chose. `clone` is whether
      the system gives a second descriptor for it. */
  method Describe(size: Long, layout: Layout, clone: bool) returns (r: Result<Layout, BadLayout>)
    ensures r.Ok? <==> clone && Bounded(size, layout)
    ensures r.Ok? ==> r.value == layout.(allocSize := size) && Bounded(size, r.value)
    ensures r.Err? ==> Blames(size, layout, r.error)
  {
    hide PlaneRule;
    if layout.width == 0 || layout.height == 0 {
      return Err(Extent(layout.width, layout.height));
    }
    if layout.modifier != MOD_LINEAR && layout.modifier != MOD_INVALID {
      return Err(Modifier(layout.modifier));
    }
    var known := PlaneRule(layout.fourcc);
    if known.None? {
      return Err(Fourcc(layout.fourcc));
    }
    var rule := known.value;
    if |layout.planes| != |rule| {
      return Err(PlaneCount(|layout.planes|, |rule|));
    }
    for at := 0 to |layout.planes|
      invariant forall p :: 0 <= p < at ==> PlaneBounded(size, layout, rule, p)
    {
      assert BoundedBefore(size, layout, at);
      var p := layout.planes[at];
      var (w, h) := (RoundedUp(layout.width, at), RoundedUp(layout.height, at));
      var tight := w * rule[at];
      if tight > U32_MAX {
        OnePlaneOut(size, layout, at);
        return Err(Extent(layout.width, layout.height));
      }
      if p.pitch < tight {
        OnePlaneOut(size, layout, at);
        return Err(Pitch(at, p.pitch, tight));
      }
      var rows := p.pitch * h;
      if rows > U64_MAX || rows + p.offset > U64_MAX {
        OnePlaneOut(size, layout, at);
        return Err(Overrun(at, U64_MAX, size));
      }
      if rows + p.offset > size {
        OnePlaneOut(size, layout, at);
        return Err(Overrun(at, rows + p.offset, size));
      }
    }
    assert Bounded(size, layout);
    if !clone {
      return Err(NoDescriptor);
    }
    r := Ok(layout.(allocSize := size));
    assert forall p :: 0 <= p < |rule| ==>
        PlaneBounded(size, layout, rule, p) == PlaneBounded(size, r.value, rule, p);
  }

  // ------------------------------------------------------------------ rows

  /** `now` is `was` with the first `rows` rows of `to` replaced by those of `src` at `from`, and
      every other byte as it was. */
  ghost predicate Copied(now: seq<Byte>, was: seq<Byte>, to: Grid, src: seq<Byte>, from: Grid,
                         row: nat, rows: nat)
  {
    && |now| == |was| && to.FitAll(|now|, row, rows) && from.FitAll(|src|, row, rows)
    && (forall y :: 0 <= y < rows ==> to.Bytes(now, row, y) == from.Bytes(src, row, y))
    && (forall i :: 0 <= i < |was| && !to.Covers(row, rows, i) ==> now[i] == was[i])
  }

  lemma CopiedNext(now: seq<Byte>, was: seq<Byte>, to: Grid, src: seq<Byte>, from: Grid, row: nat, rows: nat)
    requires Copied(now, was, to, src, from, row, rows) && row <= to.pitch
    requires to.Fits(|now|, row, rows) && from.Fits(|src|, row, rows)
    ensures Copied(Splice(now, to.Row(rows), from.Bytes(src, row, rows)), was, to, src, from, row, rows + 1)
  {
    var next := Splice(now, to.Row(rows), from.Bytes(src, row, rows));
    hide Grid.Row;
    forall y | 0 <= y < rows + 1 ensures to.Bytes(next, row, y) == from.Bytes(src, row, y) {
      if y < rows {
        to.RowsApart(y, rows);
        assert to.Bytes(now, row, y) == from.Bytes(src, row, y);
        assert to.Bytes(next, row, y) == to.Bytes(now, row, y);
      }
    }
    forall i | 0 <= i < |was| && !to.Covers(row, rows + 1, i) ensures next[i] == was[i] {
      assert !to.Covers(row, rows, i);
      assert !(to.Row(rows) <= i < to.Row(rows) + row);
    }
  }

  /** One row, byte for byte. */
  method CopyBytes(src: seq<Byte>, from: nat, dst: array<Byte>, at: nat, n: nat)
    requires from + n <= |src| && at + n <= dst.Length
    modifies dst
    ensures dst[..] == Splice(old(dst[..]), at, src[from..from + n])
  {
    forall i | 0 <= i < n {
      dst[at + i] := src[from + i];
    }
  }

  /** The row loop every copy below is: row by row, each checked against both ends, stopping at
      the first that does not fit. */
  method CopyRows(src: seq<Byte>, from: Grid, dst: array<Byte>, to: Grid, row: nat, rows: nat)
    returns (done: nat)
    requires row <= to.pitch
    modifies dst
    ensures done <= rows && Copied(dst[..], old(dst[..]), to, src, from, row, done)
    ensures done < rows ==> !(from.Fits(|src|, row, done) && to.Fits(dst.Length, row, done))
    ensures from.FitAll(|src|, row, done) && to.FitAll(dst.Length, row, done)
  {
    hide Copied, Grid.Row;
    done := 0;
    ghost var was := dst[..];
    CopiedNone(was, to, src, from, row);
    while done < rows
      invariant done <= rows && Copied(dst[..], was, to, src, from, row, done)
    {
      if from.Row(done) + row > |src| || to.Row(done) + row > dst.Length {
        break;
      }
      CopiedNext(dst[..], was, to, src, from, row, done);
      CopyBytes(src, from.Row(done), dst, to.Row(done), row);
      done := done + 1;
    }
    CopiedOnlyRows(dst[..], was, to, src, from, row, done, rows);
  }

  // ------------------------------------------------------------------ a surface

  /** One reading of a buffer. `storage` is the shared mapping of the whole buffer, or null where
      the system refuses one; two readings of one buffer hold the same storage. */
  class Surface {
    const layout: Layout
    const storage: array?<Byte>

    constructor (layout: Layout, storage: array?<Byte>)
      ensures this.layout == layout && this.storage == storage
    {
      this.layout, this.storage := layout, storage;
    }

    /** The mapping covers the whole allocation. */
    ghost predicate Valid() { storage != null ==> storage.Length == layout.allocSize }

    /** Whether the host reaches the bytes in row order: a tiled or empty buffer is refused. */
    predicate Mapped() { layout.modifier == MOD_LINEAR && layout.allocSize != 0 && storage != null }

    /** Rows from the mapping's start, laid `stride` apart in `dst`: as many of `height` as fit
        both buffers, and not one more. */
    method ReadRows(dst: array<Byte>, stride: nat, height: Word) returns (done: nat)
      requires Valid() && dst != storage
      modifies dst
      ensures layout.modifier != 0 || layout.allocSize == 0 || storage == null ==>
                done == 0 && dst[..] == old(dst[..])
      ensures layout.modifier == 0 && layout.allocSize != 0 && storage != null ==>
                var (from, to) := (Grid(0, layout.BytesPerRow()), Grid(0, stride));
                var row := Min(layout.BytesPerRow(), stride);
                && done <= height
                && Copied(dst[..], old(dst[..]), to, storage[..], from, row, done)
                && (forall n :: done < n <= height ==>
                      !(from.FitAll(storage.Length, row, n) && to.FitAll(dst.Length, row, n)))
    {
      if !Mapped() {
        return 0;
      }
      done := CopyRows(storage[..], Grid(0, layout.BytesPerRow()), dst, Grid(0, stride),
                       Min(layout.BytesPerRow(), stride), height);
    }

    /** One plane's shape as it is sampled, a subsampled plane rounded down, and its pitch. */
    function Plane(plane: nat): (r: Option<(PlaneShape, Word)>)
      ensures r.Some? <==> PlaneRule(layout.fourcc).Some?
                           && plane < |layout.planes| && plane < |PlaneRule(layout.fourcc).value|
      ensures r.Some? ==>
                && r.value.1 == r.value.0.bytesPerRow == layout.planes[plane].pitch
                && (layout.planes[plane].offset <= U32_MAX ==> r.value.0.offset == layout.planes[plane].offset)
    {
      if plane >= |layout.planes| then None
      else if PlaneRule(layout.fourcc).None? then None
      else if plane >= |PlaneRule(layout.fourcc).value| then None
      else
        var p := layout.planes[plane];
        Some((PlaneShape(RoundedDown(layout.width, plane), RoundedDown(layout.height, plane),
                         PlaneRule(layout.fourcc).value[plane], p.pitch, Min(p.offset, U32_MAX)),
              p.pitch))
    }

    /** Where a plane's rows are. */
    ghost function PlaneGrid(plane: nat): Grid
      requires plane < |layout.planes|
    {
      Grid(layout.planes[plane].offset, layout.planes[plane].pitch)
    }

    /** Rows lying `srcPitch` apart in `src` go into one plane: all of them, or `false`, and even
        then no byte outside the plane's own rows is touched. */
    method WritePlane(plane: nat, src: seq<Byte>, srcPitch: nat, rows: Word, rowBytes: nat) returns (ok: bool)
      requires Valid()
      modifies storage
      ensures layout.modifier != 0 || layout.allocSize == 0 || storage == null || Plane(plane).None? ==>
                !ok && (storage != null ==> storage[..] == old(storage[..]))
      ensures layout.modifier == 0 && layout.allocSize != 0 && storage != null && Plane(plane).Some? ==>
                var (to, from) := (PlaneGrid(plane), Grid(0, srcPitch));
                var row := Min(rowBytes, to.pitch);
                && (ok <==> to.FitAll(storage.Length, row, rows) && from.FitAll(|src|, row, rows))
                && (ok ==> Copied(storage[..], old(storage[..]), to, src, from, row, rows))
                && forall i :: 0 <= i < storage.Length && !to.Covers(row, rows, i) ==>
                     storage[i] == old(storage[i])
    {
      if !Mapped() {
        return false;
      }
      if Plane(plane).None? {
        return false;
      }
      var (to, from) := (Grid(layout.planes[plane].offset, layout.planes[plane].pitch), Grid(0, srcPitch));
      hide Copied, Grid.Row, Grid.Covers;
      var row := Min(rowBytes, to.pitch);
      ghost var was := storage[..];
      var done := CopyRows(src, from, storage, to, row, rows);
      CopiedOnlyRows(storage[..], was, to, src, from, row, done, rows);
      return done == rows;
    }

    /** The bytes of one row that are copied between surfaces, cut to 32 bits as the product is. */
    ghost function RowTaken(plane: nat): nat
      requires Plane(plane).Some?
    {
      RoundedDown(layout.width, plane) * PlaneRule(layout.fourcc).value[plane] % U32
    }

    ghost function RowsTaken(plane: nat): nat { RoundedDown(layout.height, plane) }

    /** When a plane can be copied whole: both sides have it at one size, both can be reached, and
        every row is inside both. */
    ghost predicate CanCopy(src: Surface, plane: nat) {
      && Plane(plane).Some? && src.Plane(plane).Some?
      && Plane(plane).value.0.width == src.Plane(plane).value.0.width
      && Plane(plane).value.0.height == src.Plane(plane).value.0.height
      && Mapped() && src.Mapped()
      && src.PlaneGrid(plane).FitAll(src.layout.allocSize, RowTaken(plane), RowsTaken(plane))
      && PlaneGrid(plane).FitAll(layout.allocSize, Min(RowTaken(plane), layout.planes[plane].pitch),
                                 RowsTaken(plane))
    }

    /** Fill one plane with another surface's, which may be a reading of the same buffer: every row
        is taken before any is written. */
    method CopyPlaneFrom(src: Surface, plane: nat) returns (ok: bool)
      requires Valid() && src.Valid()
      modifies storage
      ensures ok <==> CanCopy(src, plane)
      ensures ok ==> layout.modifier == src.layout.modifier == 0
      ensures ok ==>
                Copied(storage[..], old(storage[..]), PlaneGrid(plane),
                       old(src.storage[..]), src.PlaneGrid(plane),
                       Min(RowTaken(plane), layout.planes[plane].pitch), RowsTaken(plane))
      ensures storage != null ==>
                forall i :: 0 <= i < storage.Length
                            && (Plane(plane).Some? ==>
                                  !PlaneGrid(plane).Covers(Min(RowTaken(plane), layout.planes[plane].pitch),
                                                           RowsTaken(plane), i)) ==>
                  storage[i] == old(storage[i])
    {
      var (mine, theirs) := (Plane(plane), src.Plane(plane));
      if mine.None? || theirs.None? {
        return false;
      }
      var (shape, pitch) := (mine.value.0, theirs.value.1);
      if shape.width != theirs.value.0.width || shape.height != theirs.value.0.height {
        return false;
      }
      if !src.Mapped() {
        return false;
      }
      var from := Grid(src.layout.planes[plane].offset, pitch);
      var row := shape.width * shape.bytesPerElement % U32;
      var buf;
      ok, buf := src.Gather(from, row, shape.height);
      if !ok {
        return false;
      }
      ghost var theirBytes := src.storage[..];
      FitNarrower(Grid(0, row), |buf|, row, Min(row, layout.planes[plane].pitch), shape.height);
      ok := WritePlane(plane, buf, row, shape.height, row);
      if ok {
        ThroughBuffer(storage[..], old(storage[..]), PlaneGrid(plane), buf, theirBytes, from, row,
                      Min(row, layout.planes[plane].pitch), shape.height);
      }
    }

    /** Take `rows` rows, end to end, or `false` at the first that is not inside. */
    method Gather(from: Grid, row: nat, rows: nat) returns (ok: bool, buf: seq<Byte>)
      requires Valid() && Mapped()
      ensures ok <==> from.FitAll(storage.Length, row, rows)
      ensures ok ==> Gathered(buf, storage[..], from, row, rows)
    {
      hide Copied, Grid.Row, Gathered;
      EndToEnd(row, rows);
      var bytes := new Byte[row * rows](_ => 0);
      ghost var was := bytes[..];
      var done := CopyRows(storage[..], from, bytes, Grid(0, row), row, rows);
      ok, buf := done == rows, bytes[..];
      if ok {
        CopiedGathers(bytes[..], was, storage[..], from, row, rows);
      }
    }
  }

  /** `buf` is rows of `src`, end to end. */
  ghost predicate Gathered(buf: seq<Byte>, src: seq<Byte>, from: Grid, row: nat, rows: nat) {
    && Grid(0, row).FitAll(|buf|, row, rows) && from.FitAll(|src|, row, rows)
    && forall y :: 0 <= y < rows ==> Grid(0, row).Bytes(buf, row, y) == from.Bytes(src, row, y)
  }

  lemma CopiedNone(was: seq<Byte>, to: Grid, src: seq<Byte>, from: Grid, row: nat)
    ensures Copied(was, was, to, src, from, row, 0)
  {
  }

  lemma CopiedGathers(buf: seq<Byte>, was: seq<Byte>, src: seq<Byte>, from: Grid, row: nat, rows: nat)
    requires Copied(buf, was, Grid(0, row), src, from, row, rows)
    ensures Gathered(buf, src, from, row, rows)
  {
  }

  lemma FitNarrower(g: Grid, len: nat, row: nat, narrow: nat, rows: nat)
    requires g.FitAll(len, row, rows) && narrow <= row
    ensures g.FitAll(len, narrow, rows)
  {
    forall y | 0 <= y < rows ensures g.Fits(len, narrow, y) {
      assert g.Fits(len, row, y);
    }
  }

  lemma BytesNarrower(g: Grid, s: seq<Byte>, row: nat, narrow: nat, y: nat)
    requires g.Fits(|s|, row, y) && narrow <= row
    ensures g.Fits(|s|, narrow, y) && g.Bytes(s, row, y)[..narrow] == g.Bytes(s, narrow, y)
  {
  }

  /** Rows gathered and then written are rows copied, as far across as they are written. */
  lemma ThroughBuffer(now: seq<Byte>, was: seq<Byte>, to: Grid, buf: seq<Byte>, src: seq<Byte>, from: Grid,
                      row: nat, narrow: nat, rows: nat)
    requires Gathered(buf, src, from, row, rows) && narrow <= row
    requires Copied(now, was, to, buf, Grid(0, row), narrow, rows)
    ensures Copied(now, was, to, src, from, narrow, rows)
  {
    FitNarrower(from, |src|, row, narrow, rows);
    FitNarrower(Grid(0, row), |buf|, row, narrow, rows);
    forall y | 0 <= y < rows ensures to.Bytes(now, narrow, y) == from.Bytes(src, narrow, y) {
      assert Grid(0, row).Bytes(buf, row, y) == from.Bytes(src, row, y);
      BytesNarrower(Grid(0, row), buf, row, narrow, y);
      BytesNarrower(from, src, row, narrow, y);
    }
  }

  lemma CopiedOnlyRows(now: seq<Byte>, was: seq<Byte>, to: Grid, src: seq<Byte>, from: Grid,
                       row: nat, done: nat, rows: nat)
    requires Copied(now, was, to, src, from, row, done) && done <= rows
    ensures |now| == |was| && to.FitAll(|now|, row, done) && from.FitAll(|src|, row, done)
    ensures forall i :: 0 <= i < |was| && !to.Covers(row, rows, i) ==> now[i] == was[i]
  {
    forall i | 0 <= i < |was| && !to.Covers(row, rows, i) ensures now[i] == was[i] {
      assert !to.Covers(row, done, i);
    }
  }

  /** Rows laid end to end are inside their buffer. */
  lemma EndToEnd(row: nat, rows: nat)
    ensures Grid(0, row).FitAll(row * rows, row, rows)
  {
    forall y | 0 <= y < rows ensures Grid(0, row).Fits(row * rows, row, y) {
      assert row * rows == row * (rows - y - 1) + row * (y + 1);
    }
  }

  // ------------------------------------------------------------------ what the check buys

  /** A plane the check let through: the rounded-down row fits the rounded-up one, and every
      rounded-down row ends inside the buffer. */
  lemma BoundedRowsFit(size: nat, layout: Layout, plane: nat)
    requires Bounded(size, layout) && plane < |layout.planes|
    ensures var row := RoundedDown(layout.width, plane) * PlaneRule(layout.fourcc).value[plane];
            var (p, rows) := (layout.planes[plane], RoundedDown(layout.height, plane));
            && row <= p.pitch && row <= U32_MAX && row * rows <= size
            && Grid(p.offset, p.pitch).FitAll(size, row, rows)
  {
    hide PlaneRule, RoundedDown, RoundedUp, Grid.FitAll;
    Halves(layout.width, plane);
    Halves(layout.height, plane);
    var bytes := PlaneRule(layout.fourcc).value[plane];
    var (down, up) := (RoundedDown(layout.width, plane), RoundedUp(layout.width, plane));
    assert PlaneBounded(size, layout, PlaneRule(layout.fourcc).value, plane);
    Scaled(down, up, bytes);
    RowsInside(Grid(layout.planes[plane].offset, layout.planes[plane].pitch), size, down * bytes,
               RoundedDown(layout.height, plane), RoundedUp(layout.height, plane));
  }

  lemma Halves(n: nat, plane: nat)
    ensures RoundedUp(n, plane) == RoundedDown(n, plane) + if plane > 0 && n % 2 == 1 then 1 else 0
    ensures n > 0 ==> RoundedUp(n, plane) > 0
  {
  }

  lemma RowsInside(g: Grid, size: nat, row: nat, rows: nat, up: nat)
    requires row <= g.pitch && rows <= up && g.pitch * up + g.base <= size
    ensures g.FitAll(size, row, rows) && row * rows <= size
  {
    Scaled(row, g.pitch, rows);
    Scaled(rows, up, g.pitch);
    hide Grid.Row;
    forall y | 0 <= y < rows ensures g.Fits(size, row, y) {
      g.RowsApart(y, rows);
      RowIs(g, rows);
    }
  }

  lemma RowIs(g: Grid, y: nat)
    ensures g.Row(y) == g.base + g.pitch * y
  {
  }

  lemma Scaled(a: nat, b: nat, k: nat)
    requires a <= b
    ensures a * k <= b * k && k * a <= k * b
  {
  }

  lemma BoundedIsWhole(size: nat, layout: Layout)
    requires Bounded(size, layout)
    ensures PlaneRule(layout.fourcc).Some? && |layout.planes| == |PlaneRule(layout.fourcc).value|
  {
  }

  lemma BoundedIsNotEmpty(size: nat, layout: Layout)
    requires Bounded(size, layout)
    ensures size > 0
  {
    BoundedIsWhole(size, layout);
    var rule := PlaneRule(layout.fourcc).value;
    assert PlaneBounded(size, layout, rule, 0) && RoundedUp(layout.height, 0) == layout.height;
    hide PlaneRule;
    assert Tight(layout, rule, 0) == layout.width * rule[0];
    Positive(layout.width, rule[0]);
    Positive(layout.planes[0].pitch, layout.height);
  }

  lemma Positive(a: nat, b: nat)
    requires a > 0 && b > 0
    ensures a * b > 0
  {
  }

  /** Two readings of one fourcc and extent, each let through by the check, neither tiled and both
      mapped: copying a plane either has never fails, its row is never cut to 32 bits or to the
      pitch, and the buffer it goes through is no bigger than the storage. With the contract of
      the copy itself: every row is the source's, and nothing else is written. */
  lemma DescribedCopyIsTotal(to: Surface, from: Surface, plane: nat)
    requires Bounded(to.layout.allocSize, to.layout) && Bounded(from.layout.allocSize, from.layout)
    requires to.layout.fourcc == from.layout.fourcc
    requires to.layout.width == from.layout.width && to.layout.height == from.layout.height
    requires to.layout.modifier == from.layout.modifier == 0 && to.storage != null && from.storage != null
    ensures to.CanCopy(from, plane) <==> plane < |PlaneRule(to.layout.fourcc).value|
    ensures to.CanCopy(from, plane) ==>
              && to.RowTaken(plane) == RoundedDown(to.layout.width, plane) * PlaneRule(to.layout.fourcc).value[plane]
              && to.RowTaken(plane) <= to.layout.planes[plane].pitch
              && to.RowTaken(plane) * to.RowsTaken(plane) <= from.layout.allocSize
  {
    hide PlaneRule, RoundedDown, Bounded, Grid.FitAll;
    BoundedIsWhole(to.layout.allocSize, to.layout);
    BoundedIsWhole(from.layout.allocSize, from.layout);
    BoundedIsNotEmpty(to.layout.allocSize, to.layout);
    BoundedIsNotEmpty(from.layout.allocSize, from.layout);
    if plane < |PlaneRule(to.layout.fourcc).value| {
      BoundedRowsFit(to.layout.allocSize, to.layout, plane);
      BoundedRowsFit(from.layout.allocSize, from.layout, plane);
    }
  }

  /** Byte `i` is a byte of the plane's picture: the rows and pixels the check bounded. */
  ghost predicate InPicture(layout: Layout, plane: nat, i: nat)
    requires plane < |layout.planes| && PlaneRule(layout.fourcc).Some?
    requires plane < |PlaneRule(layout.fourcc).value|
  {
    Grid(layout.planes[plane].offset, layout.planes[plane].pitch)
      .Covers(Tight(layout, PlaneRule(layout.fourcc).value, plane), RoundedUp(layout.height, plane), i)
  }

  /** The check rounds a subsampled plane up and the copy rounds it down, so a copy takes the
      whole picture exactly when neither extent is odd; otherwise the last chroma row or column
      stays as it was. */
  lemma CopyTakesThePictureExactlyWhenEven(s: Surface, plane: nat)
    requires Bounded(s.layout.allocSize, s.layout) && plane < |s.layout.planes|
    ensures (forall i: nat :: InPicture(s.layout, plane, i) ==>
                s.PlaneGrid(plane).Covers(s.RowTaken(plane), s.RowsTaken(plane), i))
            <==> plane == 0 || (s.layout.width % 2 == 0 && s.layout.height % 2 == 0)
  {
    hide PlaneRule, RoundedDown, RoundedUp, Grid.Covers, Grid.FitAll;
    var (layout, rule) := (s.layout, PlaneRule(s.layout.fourcc).value);
    Halves(layout.width, plane);
    Halves(layout.height, plane);
    BoundedRowsFit(layout.allocSize, layout, plane);
    assert PlaneBounded(layout.allocSize, layout, rule, plane);
    OnePixelMore(layout.width, rule[plane], plane);
    PictureTaken(s.PlaneGrid(plane), s.RowTaken(plane), s.RowsTaken(plane), Tight(layout, rule, plane),
                 RoundedUp(layout.height, plane));
  }

  lemma OnePixelMore(n: nat, bytes: nat, plane: nat)
    ensures RoundedUp(n, plane) * bytes
         == RoundedDown(n, plane) * bytes + if plane > 0 && n % 2 == 1 then bytes else 0
    ensures n > 0 && bytes > 0 ==> RoundedUp(n, plane) * bytes > 0
  {
    Halves(n, plane);
    hide RoundedDown, RoundedUp;
  }

  lemma PictureTaken(g: Grid, row: nat, rows: nat, tight: nat, up: nat)
    requires row <= tight <= g.pitch && rows <= up && tight > 0 && up > 0
    ensures (forall i: nat :: g.Covers(tight, up, i) ==> g.Covers(row, rows, i)) <==> row == tight && rows == up
  {
    if rows < up {
      FirstPastTheRows(g, row, rows);
      assert g.Covers(tight, up, g.Row(rows));
    } else if row < tight {
      FirstPastARow(g, row, rows);
      assert g.Covers(tight, up, g.Row(0) + row);
    }
  }

  lemma FirstPastTheRows(g: Grid, row: nat, rows: nat)
    requires row <= g.pitch
    ensures !g.Covers(row, rows, g.Row(rows))
  {
    hide Grid.Row;
    forall y | 0 <= y < rows ensures g.Row(y) + row <= g.Row(rows) {
      g.RowsApart(y, rows);
    }
  }

  lemma FirstPastARow(g: Grid, row: nat, rows: nat)
    requires row < g.pitch
    ensures !g.Covers(row, rows, g.Row(0) + row)
  {
    hide Grid.Row;
    forall y | 0 < y < rows ensures g.Row(0) + row < g.Row(y) {
      g.RowsApart(0, y);
    }
  }

  /** A 3x3 picture in a buffer that just holds it. */
  function OddPicture(): Layout {
    Layout(3, 3, Code('N', 'V', '1', '2'), MOD_LINEAR,
           NewPlanes([PlaneLayout(0, 3), PlaneLayout(9, 4)]).value, 17)
  }

  lemma OddPictureIs()
    ensures OddPicture().planes == [PlaneLayout(0, 3), PlaneLayout(9, 4)]
    ensures PlaneRule(OddPicture().fourcc) == Some([1, 2]) && Bounded(17, OddPicture())
  {
    var (layout, rule) := (OddPicture(), [1, 2]);
    assert PlaneBounded(17, layout, rule, 0) && PlaneBounded(17, layout, rule, 1);
  }

  /** It can miss part of the picture: of the two chroma rows of four bytes the check accepts here,
      the copy succeeds and takes two bytes of the first. */
  lemma OddPictureLosesChroma(to: Surface, from: Surface)
    requires to.layout == from.layout == OddPicture() && to.storage != null && from.storage != null
    ensures Bounded(17, to.layout) && to.CanCopy(from, 1)
    ensures forall i: nat :: InPicture(to.layout, 1, i) <==> 9 <= i < 17
    ensures forall i: nat :: to.PlaneGrid(1).Covers(to.RowTaken(1), to.RowsTaken(1), i) <==> 9 <= i < 11
  {
    OddPictureIs();
    hide PlaneRule;
    DescribedCopyIsTotal(to, from, 1);
    OneOrTwoRows(to.PlaneGrid(1));
  }

  lemma OneOrTwoRows(g: Grid)
    ensures forall row: nat, i: nat :: g.Covers(row, 1, i) <==> g.base <= i < g.base + row
    ensures forall row: nat, i: nat :: g.Covers(row, 2, i) <==>
              g.base <= i < g.base + row || g.base + g.pitch <= i < g.base + g.pitch + row
  {
    assert g.Row(0) == g.base && g.Row(1) == g.base + g.pitch;
  }

  // ------------------------------------------------------------------ where rows are read from

  /** Reading rows starts at the mapping's first byte, not at the plane: the rows read are the first
      plane's exactly when that plane starts there, or nothing is read. */
  lemma ReadRowsReadsThePlaneExactlyAtOffsetZero(s: Surface, row: nat, done: nat)
    requires s.layout.planes != []
    ensures (forall i: nat :: Grid(0, s.layout.BytesPerRow()).Covers(row, done, i)
                              <==> s.PlaneGrid(0).Covers(row, done, i))
            <==> s.layout.planes[0].offset == 0 || row == 0 || done == 0
  {
    CoverAlike(s.layout.planes[0].offset, s.layout.BytesPerRow(), row, done);
  }

  lemma CoverAlike(offset: nat, pitch: nat, row: nat, done: nat)
    ensures (forall i: nat :: Grid(0, pitch).Covers(row, done, i) <==> Grid(offset, pitch).Covers(row, done, i))
            <==> offset == 0 || row == 0 || done == 0
  {
    var (read, plane) := (Grid(0, pitch), Grid(offset, pitch));
    if offset > 0 && row > 0 && done > 0 {
      assert read.Row(0) == 0 && read.Covers(row, done, 0);
      assert !plane.Covers(row, done, 0);
    }
  }

  /** One row of sixteen pixels, half way into a buffer. */
  function OffsetPicture(): Layout {
    Layout(16, 1, Code('A', 'R', '2', '4'), MOD_LINEAR, NewPlanes([PlaneLayout(128, 64)]).value, 192)
  }

  /** It can read none of the plane: the check accepts this layout, and the row read is all before
      the picture. */
  lemma OffsetPictureIsNotRead(s: Surface)
    requires s.layout == OffsetPicture()
    ensures Bounded(192, s.layout) && s.layout.BytesPerRow() == 64
    ensures forall i: nat :: Grid(0, 64).Covers(64, 1, i) ==> !InPicture(s.layout, 0, i)
  {
    assert OffsetPicture().planes == [PlaneLayout(128, 64)];
    assert PlaneRule(s.layout.fourcc) == Some([4]);
    assert PlaneBounded(192, s.layout, [4], 0);
    hide PlaneRule;
    OneOrTwoRows(Grid(0, 64));
    OneOrTwoRows(s.PlaneGrid(0));
  }
}
