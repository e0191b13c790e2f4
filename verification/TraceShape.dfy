/** The trace ring as a value: where its chunks lie in the buffer, and what each step of a `put`
    keeps of that. */
module TraceShape {
  import opened Bytes
  import opened TraceFormat

  /** The live chunks are `older` then `newer`. `older` is the run that reaches the buffer's end,
      empty while the ring has not wrapped; `newer` is the run that ends where the next record
      goes. */
  datatype Ring = Ring(bytes: seq<Byte>, head: nat, tail: nat, older: seq<Chunk>, newer: seq<Chunk>)

  ghost predicate Shape(r: Ring) {
    var cap := |r.bytes|;
    && (if cap < 2 * HEADER then r.head == r.tail == 0 && r.older == r.newer == []
        else r.head + HEADER <= cap && r.tail < cap)
    && (if r.older == [] then
          r.tail + |Flat(r.newer)| == r.head && r.bytes[r.tail..r.head] == Flat(r.newer)
        else
          && r.head <= r.tail && r.tail + |Flat(r.older)| == cap
          && r.bytes[r.tail..] == Flat(r.older)
          && |Flat(r.newer)| == r.head && r.bytes[..r.head] == Flat(r.newer))
    && AllRecs(r.newer)
    && (r.older != [] ==> AllRecs(r.older[..|r.older| - 1]))
  }

  ghost predicate AllRecs(cs: seq<Chunk>) {
    forall i :: 0 <= i < |cs| ==> cs[i].Rec?
  }

  /** Every chunk's length fits the 32-bit field it is written in, so the ring can read it back. */
  ghost predicate Short(cs: seq<Chunk>) {
    forall i :: 0 <= i < |cs| ==> Size(cs[i]) < U32
  }

  lemma ShortBoth(a: seq<Chunk>, b: seq<Chunk>)
    ensures Short(a + b) <==> Short(a) && Short(b)
  {
    hide Size;
    assert forall i :: 0 <= i < |a| ==> (a + b)[i] == a[i];
    assert forall i :: 0 <= i < |b| ==> (a + b)[|a| + i] == b[i];
  }

  ghost function Used(r: Ring): nat { |Flat(r.older)| + |Flat(r.newer)| }

  ghost function Live(r: Ring): seq<Chunk> { r.older + r.newer }

  lemma FlatOne(c: Chunk)
    ensures Flat([c]) == Encode(c)
  {
    hide Encode;
    assert [c][1..] == [];
  }

  // ------------------------------------------------------------------ writing

  lemma SpliceSplice(b: seq<Byte>, at: nat, s: seq<Byte>, t: seq<Byte>)
    requires at + |s| + |t| <= |b|
    ensures Splice(Splice(b, at, s), at + |s|, t) == Splice(b, at, s + t)
  {
  }

  // ------------------------------------------------------------------ one eviction

  /** The ring without its oldest chunk. */
  ghost function Evicted(r: Ring): Ring
    requires r.older != []
  {
    var next := r.tail + Size(r.older[0]);
    r.(tail := if next >= |r.bytes| then 0 else next, older := r.older[1..])
  }

  /** The bytes at the tail say how long the oldest chunk is, where its length can be read back, and
      whether it is a pad; and letting it go keeps the shape. */
  lemma EvictKeepsShape(r: Ring)
    requires Shape(r) && r.older != [] && Size(r.older[0]) < U32
    ensures r.tail + HEADER <= |r.bytes|
    ensures FromLe(r.bytes[r.tail..r.tail + 4]) == Size(r.older[0])
    ensures r.bytes[r.tail + 4] == PAD <==> r.older[0].Pad?
    ensures Size(r.older[0]) <= |r.bytes| - r.tail && Shape(Evicted(r))
    ensures Used(Evicted(r)) + Size(r.older[0]) == Used(r)
  {
    hide Encode, FromLe, Size, Header;
    var c, rest := r.older[0], Flat(r.older[1..]);
    var s := r.bytes[r.tail..];
    assert s == Encode(c) + rest;
    assert r.bytes[r.tail..r.tail + 4] == s[..4] && r.bytes[r.tail + 4] == s[4];
    if c.Rec? {
      RecAhead(c.r, c.slack, rest);
    } else {
      SizeOfPad(c.junk);
      PadAhead(c.junk, rest);
    }
    EvictRest(r, c, rest);
  }

  lemma SizeOfPad(junk: seq<Byte>)
    ensures Size(Pad(junk)) == HEADER + |junk|
  {
  }

  lemma EvictRest(r: Ring, c: Chunk, rest: seq<Byte>)
    requires Shape(r) && r.older != [] && c == r.older[0] && rest == Flat(r.older[1..])
    ensures Size(c) <= |r.bytes| - r.tail && Shape(Evicted(r))
    ensures Used(Evicted(r)) + Size(c) == Used(r)
  {
    hide Encode;
    var next := r.tail + Size(c);
    assert Flat(r.older) == Encode(c) + rest;
    assert r.bytes[next..] == r.bytes[r.tail..][Size(c)..] == rest;
    if |r.older| == 1 {
      assert rest == [];
    } else {
      assert r.older[1..][..|r.older| - 2] == r.older[..|r.older| - 1][1..];
    }
  }

  // ------------------------------------------------------------------ one pad

  /** The ring with everything from `head` to the end padded over. */
  ghost function Padded(r: Ring): Ring
    requires r.head + HEADER <= |r.bytes|
  {
    var room := |r.bytes| - r.head;
    var junk := r.bytes[r.head + HEADER..];
    r.(bytes := Splice(r.bytes, r.head, Header(room, PAD, 0, 0, 0, 0, 0, 0)),
       head := 0, older := r.newer + [Pad(junk)], newer := [])
  }

  lemma PadKeepsShape(r: Ring)
    requires Shape(r) && r.older == [] && 2 * HEADER <= |r.bytes|
    ensures Shape(Padded(r)) && Used(Padded(r)) == Used(r) + |r.bytes| - r.head
  {
    hide Header, Encode, Splice;
    var (room, junk) := (|r.bytes| - r.head, r.bytes[r.head + HEADER..]);
    var p := Padded(r);
    FlatAppend(r.newer, [Pad(junk)]);
    FlatOne(Pad(junk));
    EncodePad(junk);
    SpliceEnds(r.bytes, r.tail, r.head, Header(room, PAD, 0, 0, 0, 0, 0, 0));
    assert p.older[..|p.older| - 1] == r.newer;
  }

  lemma SpliceEnds(b: seq<Byte>, tail: nat, at: nat, s: seq<Byte>)
    requires tail <= at && at + |s| <= |b|
    ensures Splice(b, at, s)[tail..] == b[tail..at] + (s + b[at + |s|..])
  {
  }

  lemma EncodePad(junk: seq<Byte>)
    ensures Encode(Pad(junk)) == Header(HEADER + |junk|, PAD, 0, 0, 0, 0, 0, 0) + junk
  {
  }

  // ------------------------------------------------------------------ one record

  /** The ring with `c` written at the head. Filling the buffer to its end wraps the head. */
  ghost function Appended(r: Ring, c: Chunk): Ring
    requires r.head + Size(c) <= |r.bytes|
  {
    var bytes := Splice(r.bytes, r.head, Encode(c));
    if r.head + Size(c) == |r.bytes| then
      Ring(bytes, 0, r.tail, r.older + r.newer + [c], [])
    else Ring(bytes, r.head + Size(c), r.tail, r.older, r.newer + [c])
  }

  lemma AppendKeepsShape(r: Ring, c: Chunk)
    requires Shape(r) && c.Rec? && 2 * HEADER <= |r.bytes|
    requires r.head + Size(c) <= if r.older == [] then |r.bytes| else r.tail
    requires r.head + Size(c) == |r.bytes| || r.head + Size(c) + HEADER <= |r.bytes|
    ensures Shape(Appended(r, c)) && Used(Appended(r, c)) == Used(r) + Size(c)
    ensures Live(Appended(r, c)) == Live(r) + [c]
  {
    hide Encode, Size, Flat;
    assert r.older + (r.newer + [c]) == r.older + r.newer + [c];
    assert r.older + r.newer + [c] + [] == r.older + r.newer + [c];
    if r.older == [] {
      AppendOpen(r, c);
    } else {
      AppendWrapped(r, c);
    }
  }

  lemma FlatEmpty()
    ensures Flat([]) == []
  {
  }

  lemma FlatNext(cs: seq<Chunk>, c: Chunk)
    ensures Flat(cs + [c]) == Flat(cs) + Encode(c)
  {
    hide Encode;
    FlatAppend(cs, [c]);
    FlatOne(c);
  }

  lemma AppendBytes(b: seq<Byte>, head: nat, tail: nat, s: seq<Byte>)
    requires head + |s| <= |b| && tail <= |b|
    ensures var a := Splice(b, head, s);
            && a[..head + |s|] == b[..head] + s
            && (head + |s| <= tail ==> a[tail..] == b[tail..])
            && (tail <= head ==> a[tail..head + |s|] == b[tail..head] + s)
  {
  }

  lemma AppendOpen(r: Ring, c: Chunk)
    requires Shape(r) && c.Rec? && 2 * HEADER <= |r.bytes| && r.older == []
    requires r.head + Size(c) == |r.bytes| || r.head + Size(c) + HEADER <= |r.bytes|
    ensures Shape(Appended(r, c)) && Used(Appended(r, c)) == Used(r) + Size(c)
  {
    hide Encode, Size, Flat;
    FlatNext(r.newer, c);
    FlatEmpty();
    AppendBytes(r.bytes, r.head, r.tail, Encode(c));
    var a := Appended(r, c);
    assert r.older + r.newer + [c] == r.newer + [c];
    assert (r.newer + [c])[..|r.newer|] == r.newer;
    if r.head + Size(c) == |r.bytes| {
      assert a.bytes[r.tail..] == a.bytes[r.tail..r.head + Size(c)];
    }
  }

  lemma AppendWrapped(r: Ring, c: Chunk)
    requires Shape(r) && c.Rec? && 2 * HEADER <= |r.bytes| && r.older != []
    requires r.head + Size(c) <= r.tail && r.head + Size(c) + HEADER <= |r.bytes|
    ensures Shape(Appended(r, c)) && Used(Appended(r, c)) == Used(r) + Size(c)
  {
    hide Encode, Size, Flat;
    FlatNext(r.newer, c);
    AppendBytes(r.bytes, r.head, r.tail, Encode(c));
  }

  // ------------------------------------------------------------------ reading round

  /** `n` bytes from `pos`, wrapping past the end. */
  ghost function Around(b: seq<Byte>, pos: nat, n: nat): seq<Byte>
    requires pos <= |b| && n <= |b|
  {
    if pos + n <= |b| then b[pos..pos + n] else b[pos..] + b[..pos + n - |b|]
  }

  /** The used bytes from the tail are the live chunks, whole and in order. */
  lemma AroundIsLive(r: Ring)
    requires Shape(r)
    ensures Used(r) <= |r.bytes| && r.tail <= |r.bytes|
    ensures Around(r.bytes, r.tail, Used(r)) == Flat(Live(r))
  {
    hide Flat;
    FlatEmpty();
    FlatAppend(r.older, r.newer);
    if r.older == [] {
      assert Live(r) == r.newer;
    } else if r.newer == [] {
      assert r.bytes[r.tail..r.tail + Used(r)] == r.bytes[r.tail..];
      assert Live(r) == r.older;
    }
  }

  // ------------------------------------------------------------------ no chunk is split

  /** Where the `i`th live chunk starts in the buffer. */
  ghost function Start(r: Ring, i: nat): nat
    requires i <= |Live(r)|
  {
    var at := r.tail + |Flat(Live(r)[..i])|;
    if at >= |r.bytes| then at - |r.bytes| else at
  }

  lemma FlatSlice(cs: seq<Chunk>, i: nat)
    requires i < |cs|
    ensures var at := |Flat(cs[..i])|;
            at + Size(cs[i]) <= |Flat(cs)| && Flat(cs)[at..at + Size(cs[i])] == Encode(cs[i])
            && (i == |cs| - 1 ==> at + Size(cs[i]) == |Flat(cs)|)
  {
    hide Encode, Size, Flat;
    FlatEmpty();
    FlatNext(cs[..i], cs[i]);
    FlatAppend(cs[..i] + [cs[i]], cs[i + 1..]);
    assert cs == cs[..i] + [cs[i]] + cs[i + 1..];
    assert Flat(cs) == Flat(cs[..i]) + Encode(cs[i]) + Flat(cs[i + 1..]);
  }

  /** Every live chunk lies whole in the buffer, none across its end, and a pad is the one that
      runs up to it. */
  lemma NoneSplit(r: Ring, i: nat)
    requires Shape(r) && i < |Live(r)|
    ensures var (c, at) := (Live(r)[i], Start(r, i));
            && at + Size(c) <= |r.bytes| && r.bytes[at..at + Size(c)] == Encode(c)
            && (c.Pad? ==> at + Size(c) == |r.bytes|)
  {
    hide Encode, Size, Flat;
    FlatEmpty();
    var n := |r.older|;
    if i < n {
      FlatSlice(r.older, i);
      assert Live(r)[..i] == r.older[..i];
      var at := |Flat(r.older[..i])|;
      assert r.bytes[r.tail..][at..at + Size(r.older[i])]
             == r.bytes[r.tail + at..r.tail + at + Size(r.older[i])];
    } else {
      var j := i - n;
      FlatSlice(r.newer, j);
      FlatAppend(r.older, r.newer[..j]);
      assert Live(r)[..i] == r.older + r.newer[..j];
      var (at, size) := (|Flat(r.newer[..j])|, Size(r.newer[j]));
      if r.older == [] {
        assert r.bytes[r.tail..r.head][at..at + size] == r.bytes[r.tail + at..r.tail + at + size];
      } else {
        assert r.bytes[..r.head][at..at + size] == r.bytes[at..at + size];
      }
    }
  }
}
