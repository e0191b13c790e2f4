/** Where a planar surface's luma and chroma go in one allocation of at most 32 bits. */
module PlanarLayout {
  import opened Bytes
  import opened Layouts

  /** The extent of plane `i`: luma whole, chroma at half, rounded up. */
  function Extent(width: Word, height: Word, i: nat): (nat, nat) {
    if i == 0 then (width, height) else (HalfUp(width), HalfUp(height))
  }

  function BytesPerElement(i: nat): nat { if i == 0 then 1 else 2 }

  function AlignUp(n: nat, align: nat): nat
    requires align > 0
  {
    (n + align - 1) / align * align
  }

  /** The least multiple of the alignment a row fits in. */
  lemma AlignUpIsLeast(n: nat, align: nat)
    requires align > 0
    ensures n <= AlignUp(n, align) < n + align && AlignUp(n, align) % align == 0
  {
    var q := (n + align - 1) / align;
    assert q * align % align == 0 by {
      ModUnique(q * align, align, q, 0);
    }
  }

  /** The row a plane is given: the source multiplies in 32 bits and lets both products wrap. */
  function Pitch(width: nat, i: nat, align: nat): nat
    requires align > 0
  {
    AlignUp(width * BytesPerElement(i) % U32, align) % U32
  }

  /** What the device demands of each plane's rows, where there is a device to ask. */
  datatype Alignments = Alignments(luma: Option<Long>, chroma: Option<Long>) {
    function Of(i: nat): Option<Long> { if i == 0 then luma else chroma }

    predicate Valid() { (luma.Some? ==> luma.value > 0) && (chroma.Some? ==> chroma.value > 0) }

    predicate Known() { luma.Some? && luma.value <= U32_MAX && chroma.Some? && chroma.value <= U32_MAX }
  }

  /** Where a plane ends when it starts at `offset`, at the pitch it is given. */
  function EndAfter(width: Word, height: Word, i: nat, align: nat, offset: nat): nat
    requires align > 0
  {
    offset + Pitch(Extent(width, height, i).0, i, align) * Extent(width, height, i).1
  }

  /** What each plane of a surface is, laid out end to end; none without a device, or past 32 bits. */
  method Planes(width: Word, height: Word, aligns: Alignments) returns (r: Option<seq<PlaneShape>>)
    requires aligns.Valid()
    ensures r.Some? <==>
              && aligns.Known()
              && var luma := EndAfter(width, height, 0, aligns.luma.value, 0);
                 luma <= U32_MAX && EndAfter(width, height, 1, aligns.chroma.value, luma) <= U32_MAX
    ensures r.Some? ==>
              && |r.value| == 2 && r.value[0].offset == 0 && r.value[1].offset == r.value[0].End()
              && r.value[1].End() <= U32_MAX
              && r.value[0].width == width && r.value[0].height == height
              && r.value[1].width == HalfUp(width) && r.value[1].height == HalfUp(height)
              && r.value[0].bytesPerElement == 1 && r.value[1].bytesPerElement == 2
              && r.value[0].bytesPerRow == Pitch(width, 0, aligns.luma.value)
              && r.value[1].bytesPerRow == Pitch(HalfUp(width), 1, aligns.chroma.value)
  {
    hide Pitch;
    var offset := 0;
    var planes: seq<PlaneShape> := [];
    for i := 0 to 2
      invariant |planes| == i && offset <= U32_MAX
      invariant i == 0 ==> offset == 0
      invariant i > 0 ==>
                  && aligns.luma.Some? && aligns.luma.value <= U32_MAX
                  && planes[0] == PlaneShape(width, height, 1, Pitch(width, 0, aligns.luma.value), 0)
                  && (if i == 1 then planes[0].End() else planes[1].offset) == planes[0].End()
                  && planes[0].End() <= U32_MAX
      invariant i == 1 ==> offset == planes[0].End()
      invariant i == 2 ==>
                  && aligns.Known() && offset == planes[1].End()
                  && planes[1] == PlaneShape(HalfUp(width), HalfUp(height), 2,
                                             Pitch(HalfUp(width), 1, aligns.chroma.value), planes[0].End())
    {
      var (w, h) := Extent(width, height, i);
      if aligns.Of(i).None? || aligns.Of(i).value > U32_MAX {
        return None;
      }
      var pitch := Pitch(w, i, aligns.Of(i).value);
      planes := planes + [PlaneShape(w, h, BytesPerElement(i), pitch, offset)];
      if pitch * h > U32_MAX || offset + pitch * h > U32_MAX {
        return None;
      }
      offset := offset + pitch * h;
    }
    r := Some(planes);
  }

  /** A layout to copy by: each plane's rows hold their pixels, are aligned, and waste less than
      one alignment. */
  ghost predicate Sound(s: PlaneShape, align: nat) {
    align > 0 && s.Tight() <= s.bytesPerRow < s.Tight() + align && s.bytesPerRow % align == 0
  }

  /** A plane's pitch is the one to copy by exactly when its aligned row fits 32 bits; past that
      it wraps, and the rows are sheared. */
  lemma PitchIsSoundExactlyWhenTheRowFits(width: nat, i: nat, align: nat, height: nat, offset: nat)
    requires 0 < align <= U32_MAX
    ensures Sound(PlaneShape(width, height, BytesPerElement(i), Pitch(width, i, align), offset), align)
            <==> AlignUp(width * BytesPerElement(i), align) <= U32_MAX
  {
    var tight := width * BytesPerElement(i);
    var (p, up) := (Pitch(width, i, align), AlignUp(tight, align));
    AlignUpIsLeast(tight, align);
    if up <= U32_MAX {
      ModUnique(tight, U32, 0, tight);
      ModUnique(up, U32, 0, up);
    } else if tight <= p < tight + align && p % align == 0 {
      SameMultiple(p, up, align);
    }
  }

  lemma SameMultiple(p: nat, q: nat, align: nat)
    requires align > 0 && p % align == 0 && q % align == 0 && p - align < q < p + align
    ensures p == q
  {
    if p <= q {
      ModUnique(q, align, p / align, q - p);
    } else {
      ModUnique(p, align, q / align, p - q);
    }
  }

  /** It can wrap: the widest picture there is, at the alignment of a common device, is laid out
      with luma rows of no bytes at all, and accepted. */
  lemma TheWidestPictureIsSheared()
    ensures Pitch(U32_MAX, 0, 16) == 0
    ensures EndAfter(U32_MAX, 1, 0, 16, 0) == 0 && EndAfter(U32_MAX, 1, 1, 16, 0) == 0
  {
    assert AlignUp(U32_MAX, 16) == U32;
    assert HalfUp(U32_MAX) * 2 == U32;
  }
}
