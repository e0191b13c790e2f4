/** How storage is laid out for another process to read, and why a layout may describe no buffer. */
module Layouts {
  import opened Bytes

  const MOD_LINEAR: nat := 0
  const MOD_INVALID: nat := 0x00ff_ffff_ffff_ffff
  const MAX_PLANES: nat := 4

  datatype PlaneLayout = PlaneLayout(offset: Long, pitch: Word)

  const NO_PLANE: PlaneLayout := PlaneLayout(0, 0)

  /** Four slots, and how many of them are planes. */
  datatype PlaneSlots = PlaneSlots(at: seq<PlaneLayout>, count: nat) {
    /** The slots that are planes. */
    function Read(): (planes: seq<PlaneLayout>)
      requires count <= |at|
    {
      at[..count]
    }
  }

  /** The planes of an allocation, as `NewPlanes` makes them: the slots past them are empty. */
  type PlaneLayouts = p: PlaneSlots |
      |p.at| == MAX_PLANES && p.count <= MAX_PLANES && forall i :: p.count <= i < MAX_PLANES ==> p.at[i] == NO_PLANE
    witness PlaneSlots([NO_PLANE, NO_PLANE, NO_PLANE, NO_PLANE], 0)

  datatype Layout = Layout(width: Word, height: Word, fourcc: Word, modifier: Long, held: PlaneLayouts,
                           allocSize: Long)
  {
    const planes: seq<PlaneLayout> := held.Read()

    /** The first plane's pitch; zero for a layout with none. */
    function BytesPerRow(): Word { if planes == [] then 0 else planes[0].pitch }
  }

  /** One plane, laid out. */
  datatype PlaneShape = PlaneShape(width: nat, height: nat, bytesPerElement: nat, bytesPerRow: nat, offset: nat) {
    function Tight(): nat { width * bytesPerElement }

    function End(): nat { offset + bytesPerRow * height }
  }

  datatype BadLayout =
    | Extent(width: Word, height: Word)
    | Fourcc(code: Word)
    | TooManyPlanes(said: nat, max: nat)
    | Modifier(modifier: Long)
    | PlaneCount(said: nat, wants: nat)
    | Pitch(plane: nat, pitch: Word, tight: nat)
    | Overrun(plane: nat, end: nat, size: nat)
    | NoDescriptor

  datatype Result<+T, +E> = Ok(value: T) | Err(error: E)

  /** Copy the planes into the slots. More than fit are refused, and none is trimmed: what is read
      back is what was passed. */
  function NewPlanes(planes: seq<PlaneLayout>): (r: Result<PlaneLayouts, BadLayout>)
    ensures r.Ok? <==> |planes| <= 4
    ensures r.Ok? ==> r.value.Read() == planes
    ensures r.Err? ==> r.error == TooManyPlanes(|planes|, 4)
  {
    if |planes| > MAX_PLANES then Err(TooManyPlanes(|planes|, MAX_PLANES))
    else
      var empty := [NO_PLANE, NO_PLANE, NO_PLANE, NO_PLANE];
      Ok(PlaneSlots(planes + empty[|planes|..], |planes|))
  }

  /** Reading back and making again is the identity too, so two sets of slots are equal exactly
      when they read alike, whatever their empty slots. */
  lemma PlanesReadBack(p: PlaneLayouts, q: PlaneLayouts)
    ensures |p.Read()| <= MAX_PLANES && NewPlanes(p.Read()) == Ok(p)
    ensures p == q <==> p.Read() == q.Read()
  {
    hide PlaneSlots.Read;
    SlotsFromRead(p);
    SlotsFromRead(q);
  }

  lemma SlotsFromRead(p: PlaneLayouts)
    ensures |p.Read()| <= MAX_PLANES && NewPlanes(p.Read()) == Ok(p)
  {
    assert NewPlanes(p.Read()).value.at == p.at;
  }
}
