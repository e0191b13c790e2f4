/** The open-addressed table that keeps a trace from recording one blob's frame twice. */
module BlobTable {
  import opened Bytes
  import opened TraceFormat

  const SLOTS: nat := 64

  // ------------------------------------------------------------------ the hash

  type Hash = Long

  /** Exclusive or, digit by binary digit. */
  function Xor(a: nat, b: nat): nat
    decreases b
  {
    if b == 0 then a else 2 * Xor(a / 2, b / 2) + if a % 2 == b % 2 then 0 else 1
  }

  function Mix(h: Hash, b: Byte): Hash { Xor(h, b) * 0x100_0000_01b3 % 0x1_0000_0000_0000_0000 }

  /** FNV-1a over a frame's bytes, in wrapping 64-bit arithmetic. */
  function Fnv(bytes: seq<Byte>): Hash {
    if bytes == [] then 0xcbf2_9ce4_8422_2325
    else Mix(Fnv(bytes[..|bytes| - 1]), bytes[|bytes| - 1])
  }

  lemma FnvNext(a: seq<Byte>, b: Byte)
    ensures Fnv([]) == 0xcbf2_9ce4_8422_2325
    ensures Fnv(a + [b]) == Mix(Fnv(a), b)
  {
    hide Mix;
    assert (a + [b])[..|a|] == a;
  }

  lemma XorDigit(a: nat, b: nat)
    ensures Xor(a, b) % 2 == (a + b) % 2 && Xor(a, b) / 2 == Xor(a / 2, b / 2)
  {
    if b > 0 {
      Halved(Xor(a / 2, b / 2), a, b, Xor(a, b));
    }
  }

  lemma Halved(x: nat, a: nat, b: nat, y: nat)
    requires y == 2 * x + if a % 2 == b % 2 then 0 else 1
    ensures y % 2 == (a + b) % 2 && y / 2 == x
  {
  }

  lemma {:induction false} XorOneToOne(a: nat, b: nat, c: nat)
    ensures Xor(a, b) == Xor(a, c) ==> b == c
    decreases b + c
  {
    if b + c > 0 {
      XorDigit(a, b);
      XorDigit(a, c);
      hide Xor;
      XorOneToOne(a / 2, b / 2, c / 2);
    }
  }

  lemma {:induction false} XorUndone(a: nat, b: nat)
    ensures Xor(Xor(a, b), b) == a
    decreases b
  {
    if b > 0 {
      XorDigit(a, b);
      XorUndone(a / 2, b / 2);
    }
  }

  /** One digit further from the top: what lies above `b` is left alone. */
  lemma XorAbove(above: nat, low: nat, b: nat, bound: nat)
    requires Xor(above + low / 2, b / 2) == above + Xor(low / 2, b / 2) && Xor(low / 2, b / 2) < bound
    ensures Xor(2 * above + low, b) == 2 * above + Xor(low, b) && Xor(low, b) < 2 * bound
  {
    XorDigit(2 * above + low, b);
    XorDigit(low, b);
    hide Xor;
    assert (2 * above + low) / 2 == above + low / 2;
  }

  lemma XorAboveFour(above: nat, low: nat, b: nat, bound: nat)
    requires Xor(above + low / 16, b / 16) == above + Xor(low / 16, b / 16) && Xor(low / 16, b / 16) < bound
    ensures Xor(16 * above + low, b) == 16 * above + Xor(low, b) && Xor(low, b) < 16 * bound
  {
    hide Xor;
    assert low / 8 / 2 == low / 16 && b / 8 / 2 == b / 16;
    XorAbove(above, low / 8, b / 8, bound);
    assert low / 4 / 2 == low / 8 && b / 4 / 2 == b / 8;
    XorAbove(2 * above, low / 4, b / 4, 2 * bound);
    assert low / 2 / 2 == low / 4 && b / 2 / 2 == b / 4;
    XorAbove(4 * above, low / 2, b / 2, 4 * bound);
    XorAbove(8 * above, low, b, 8 * bound);
  }

  /** Only the lowest byte is touched. */
  lemma XorLow(above: nat, low: Byte, b: Byte)
    ensures Xor(256 * above + low, b) == 256 * above + Xor(low, b) && Xor(low, b) < 256
  {
    assert Xor(above, 0) == above && Xor(0, 0) == 0;
    hide Xor;
    assert low / 16 / 16 == 0 && b / 16 / 16 == 0;
    XorAboveFour(above, low / 16, b / 16, 1);
    XorAboveFour(16 * above, low, b, 16);
  }

  lemma XorStaysWide(h: Hash, b: Byte)
    ensures Xor(h, b) < 0x1_0000_0000_0000_0000
  {
    XorLow(h / 256, h % 256, b);
    hide Xor;
  }

  lemma XorA()
    ensures Xor(0x25, 0x61) == 0x44
  {
    assert Xor(0x0, 0x0) == 0x0 && Xor(0x0, 0x1) == 0x1 && Xor(0x1, 0x3) == 0x2 && Xor(0x2, 0x6) == 0x4;
    assert Xor(0x4, 0xc) == 0x8 && Xor(0x9, 0x18) == 0x11 && Xor(0x12, 0x30) == 0x22;
  }

  lemma XorF()
    ensures Xor(0x25, 0x66) == 0x43
  {
    assert Xor(0x0, 0x0) == 0x0 && Xor(0x0, 0x1) == 0x1 && Xor(0x1, 0x3) == 0x2 && Xor(0x2, 0x6) == 0x4;
    assert Xor(0x4, 0xc) == 0x8 && Xor(0x9, 0x19) == 0x10 && Xor(0x12, 0x33) == 0x21;
  }

  lemma XorO()
    ensures Xor(0xd9, 0x6f) == 0xb6
  {
    assert Xor(0x1, 0x0) == 0x1 && Xor(0x3, 0x1) == 0x2 && Xor(0x6, 0x3) == 0x5 && Xor(0xd, 0x6) == 0xb;
    assert Xor(0x1b, 0xd) == 0x16 && Xor(0x36, 0x1b) == 0x2d && Xor(0x6c, 0x37) == 0x5b;
  }

  lemma MixOf(above: nat, low: Byte, b: Byte, x: Byte)
    requires 256 * above + low < U64 && Xor(low, b) == x
    ensures Mix(256 * above + low, b) == (256 * above + x) * 0x100_0000_01b3 % 0x1_0000_0000_0000_0000
  {
    XorLow(above, low, b);
    hide Xor;
  }

  /** The hashes the FNV reference lists for the empty input, "a" and "fo". */
  lemma KnownHashes()
    ensures Fnv([]) == 0xcbf2_9ce4_8422_2325
    ensures Fnv([0x61]) == 0xaf63_dc4c_8601_ec8c
    ensures Fnv([0x66, 0x6f]) == 0x898_5907_b541_d342
  {
    XorA();
    XorF();
    XorO();
    hide Xor, Mix, Fnv;
    MixOf(0xcb_f29c_e484_2223, 0x25, 0x61, 0x44);
    MixOf(0xcb_f29c_e484_2223, 0x25, 0x66, 0x43);
    MixOf(0xaf_63db_4c86_01ea, 0xd9, 0x6f, 0xb6);
    FnvNext([], 0x61);
    FnvNext([], 0x66);
    FnvNext([0x66], 0x6f);
    assert [] + [0x61] == [0x61] && [] + [0x66] == [0x66] && [0x66] + [0x6f] == [0x66, 0x6f];
  }

  /** The multiplier has an inverse modulo 2 to the 64. */
  lemma ProductOneToOne(x: Hash, y: Hash)
    requires x * 0x100_0000_01b3 % 0x1_0000_0000_0000_0000 == y * 0x100_0000_01b3 % 0x1_0000_0000_0000_0000
    ensures x == y
  {
    var (a, b) := (x * 0x100_0000_01b3 / 0x1_0000_0000_0000_0000, y * 0x100_0000_01b3 / 0x1_0000_0000_0000_0000);
    assert (x - y) * 0x100_0000_01b3 == 0x1_0000_0000_0000_0000 * (a - b);
    var z := 0xce96_5057_aff6_957b * (a - b) - 0xce_9650_590f * (x - y);
    assert x - y == 0x1_0000_0000_0000_0000 * z;
  }

  /** From one hash only one byte, and with one byte only one hash, mixes to what it does. */
  lemma MixUndone(h: Hash, k: Hash, x: Byte, y: Byte)
    ensures Mix(h, x) == Mix(k, x) ==> h == k
    ensures Mix(h, x) == Mix(h, y) ==> x == y
  {
    XorStaysWide(h, x);
    XorStaysWide(k, x);
    XorStaysWide(h, y);
    XorUndone(h, x);
    XorUndone(k, x);
    XorOneToOne(h, x, y);
    if Mix(h, x) == Mix(k, x) {
      ProductOneToOne(Xor(h, x), Xor(k, x));
    }
    if Mix(h, x) == Mix(h, y) {
      ProductOneToOne(Xor(h, x), Xor(h, y));
    }
  }

  /** Two frames of one length that differ in one byte never hash the same. */
  lemma {:induction false} OneByteChangesTheHash(a: seq<Byte>, b: seq<Byte>, i: nat)
    requires |a| == |b| && i < |a| && a[i] != b[i]
    requires forall j :: 0 <= j < |a| && j != i ==> a[j] == b[j]
    ensures Fnv(a) != Fnv(b)
  {
    hide Fnv, Mix;
    var n := |a| - 1;
    assert a == a[..n] + [a[n]] && b == b[..n] + [b[n]];
    FnvNext(a[..n], a[n]);
    FnvNext(b[..n], b[n]);
    MixUndone(Fnv(a[..n]), Fnv(b[..n]), a[n], b[n]);
    if i == n {
      assert a[..n] == b[..n];
    } else {
      OneByteChangesTheHash(a[..n], b[..n], i);
    }
  }

  // ------------------------------------------------------------------ what the table stands for

  datatype Entry = Entry(hash: Hash, kept: nat, dropped: nat)

  datatype Slot = Slot(handle: Option<Handle>, entry: Entry)

  /** One frame of a blob, observed against the blobs seen so far: what is seen then, and whether
      the frame is recorded. */
  function Observed(seen: map<Handle, Entry>, h: Handle, hash: Hash, max: nat)
    : (map<Handle, Entry>, bool)
  {
    if h in seen then
      var e := seen[h];
      if e.hash == hash then (seen, false)
      else if e.kept >= max then (seen[h := Entry(hash, e.kept, e.dropped + 1)], false)
      else (seen[h := Entry(hash, e.kept + 1, e.dropped)], true)
    else if |seen| < SLOTS then (seen[h := Entry(hash, 1, 0)], true)
    else (seen, true)
  }

  datatype Frame = Frame(handle: Handle, hash: Hash)

  function Seen(run: seq<Frame>, max: nat): map<Handle, Entry> {
    if run == [] then map[]
    else
      var last := run[|run| - 1];
      Observed(Seen(run[..|run| - 1], max), last.handle, last.hash, max).0
  }

  /** Whether frame `i` of a run is recorded. */
  predicate Recorded(run: seq<Frame>, max: nat, i: nat)
    requires i < |run|
  {
    Observed(Seen(run[..i], max), run[i].handle, run[i].hash, max).1
  }

  /** The hashes of one blob's frames, in the order they came. */
  function HashesOf(run: seq<Frame>, h: Handle): seq<Hash> {
    if run == [] then []
    else
      var last := run[|run| - 1];
      HashesOf(run[..|run| - 1], h) + (if last.handle == h then [last.hash] else [])
  }

  /** How often a blob's content changed, its first frame counted. */
  function Changes(hs: seq<Hash>): (n: nat)
    ensures hs != [] ==> n > 0
  {
    if hs == [] then 0
    else
      var n := |hs| - 1;
      Changes(hs[..n]) + (if n == 0 || hs[n] != hs[n - 1] then 1 else 0)
  }

  /** A blob's entry against the frames it showed. */
  predicate Agrees(seen: map<Handle, Entry>, h: Handle, hs: seq<Hash>, max: nat) {
    && |seen| <= SLOTS
    && (h in seen ==>
          && hs != [] && seen[h].hash == hs[|hs| - 1]
          && seen[h].kept + seen[h].dropped == Changes(hs)
          && seen[h].kept == Min(Changes(hs), Max(1, max)))
    && (h !in seen && hs != [] ==> |seen| == SLOTS)
  }

  lemma AgreesStep(seen: map<Handle, Entry>, h: Handle, hs: seq<Hash>, x: Hash, max: nat)
    requires Agrees(seen, h, hs, max)
    ensures Agrees(Observed(seen, h, x, max).0, h, hs + [x], max)
  {
    assert (hs + [x])[..|hs|] == hs;
    assert Changes(hs + [x]) == Changes(hs) + (if hs == [] || x != hs[|hs| - 1] then 1 else 0);
  }

  /** On every run, a tracked blob's entry is its own history and nobody else's: the last hash it
      showed, and every change either kept, up to the cap, or counted as dropped. A blob that is
      not tracked came when the table was full of others. */
  lemma {:induction false} EntryIsHistory(run: seq<Frame>, max: nat, h: Handle)
    ensures Agrees(Seen(run, max), h, HashesOf(run, h), max)
    ensures |Seen(run, max)| <= 64
    ensures h !in Seen(run, max) && HashesOf(run, h) != [] ==> |Seen(run, max)| == 64
  {
    if run != [] {
      var before, last := run[..|run| - 1], run[|run| - 1];
      EntryIsHistory(before, max, h);
      if last.handle == h {
        AgreesStep(Seen(before, max), h, HashesOf(before, h), last.hash, max);
      } else {
        assert HashesOf(run, h) == HashesOf(before, h);
      }
    }
  }

  /** A frame is left out only on its own blob's account: its blob is tracked, and either its
      content is what it last was or the blob has already changed `max` times. */
  lemma RecordedExactlyWhen(run: seq<Frame>, max: nat, i: nat)
    requires i < |run|
    ensures var h := run[i].handle;
            var (seen, hs) := (Seen(run[..i], max), HashesOf(run[..i], h));
            && (h in seen ==> hs != [])
            && (Recorded(run, max, i) <==>
                h !in seen || (run[i].hash != hs[|hs| - 1] && Changes(hs) < max))
  {
    EntryIsHistory(run[..i], max, run[i].handle);
  }

  /** A full table never forgets a blob, and never stops recording one it has no room for. */
  lemma UntrackedAlwaysRecorded(run: seq<Frame>, max: nat, i: nat)
    requires i < |run| && run[i].handle !in Seen(run, max)
    ensures Recorded(run, max, i)
  {
    SeenGrows(run, max, i);
  }

  lemma {:induction false} SeenGrows(run: seq<Frame>, max: nat, i: nat)
    requires i <= |run|
    ensures Seen(run[..i], max).Keys <= Seen(run, max).Keys
  {
    if i == |run| {
      assert run[..i] == run;
    } else {
      var before := run[..|run| - 1];
      assert before[..i] == run[..i];
      SeenGrows(before, max, i);
    }
  }

  // ------------------------------------------------------------------ the probe

  function Home(h: Handle): nat { h % SLOTS }

  /** The slot `d` steps along the probe for `h`. */
  function At(h: Handle, d: nat): (i: nat)
    ensures i < SLOTS
  {
    (Home(h) + d) % SLOTS
  }

  /** `at[h]` is how far along its probe a blob's slot is, and every slot before it is taken. */
  ghost predicate Layout(slots: seq<Slot>, seen: map<Handle, Entry>, at: map<Handle, nat>) {
    && |slots| == SLOTS
    && at.Keys == seen.Keys
    && (forall h :: h in at ==> at[h] < SLOTS && slots[At(h, at[h])] == Slot(Some(h), seen[h]))
    && (forall i :: 0 <= i < SLOTS && slots[i].handle.Some? ==>
          slots[i].handle.value in at && At(slots[i].handle.value, at[slots[i].handle.value]) == i)
    && (forall h, d :: h in at && 0 <= d < at[h] ==> slots[At(h, d)].handle.Some?)
  }

  lemma ProbeCovers(h: Handle, i: nat) returns (d: nat)
    requires i < SLOTS
    ensures d < SLOTS && At(h, d) == i
  {
    d := (i + SLOTS - Home(h)) % SLOTS;
  }

  /** The blobs seen number the slots taken. */
  lemma {:induction false} Taken(slots: seq<Slot>, seen: map<Handle, Entry>, at: map<Handle, nat>, n: nat)
    returns (hs: set<Handle>)
    requires Layout(slots, seen, at) && n <= SLOTS
    ensures forall h :: h in hs <==> h in at && At(h, at[h]) < n
    ensures |hs| <= n && (|hs| == n <==> Full(slots[..n]))
  {
    hide At;
    if n == 0 {
      hs := {};
    } else {
      var before := Taken(slots, seen, at, n - 1);
      FullNext(slots, n);
      match slots[n - 1].handle
      case Some(h) =>
        assert h !in before;
        hs := before + {h};
      case None =>
        hs := before;
    }
  }

  predicate Full(slots: seq<Slot>) {
    forall i :: 0 <= i < |slots| ==> slots[i].handle.Some?
  }

  lemma FullNext(slots: seq<Slot>, n: nat)
    requires 0 < n <= |slots|
    ensures Full(slots[..n]) <==> Full(slots[..n - 1]) && slots[n - 1].handle.Some?
  {
    assert slots[..n] == slots[..n - 1] + [slots[n - 1]];
  }

  lemma FullWhen(slots: seq<Slot>, seen: map<Handle, Entry>, at: map<Handle, nat>)
    requires Layout(slots, seen, at)
    ensures |seen| <= SLOTS && (|seen| == SLOTS <==> Full(slots))
  {
    var hs := Taken(slots, seen, at, SLOTS);
    assert hs == seen.Keys;
    assert slots[..SLOTS] == slots;
  }

  /** A probe that met only other blobs, and then a free slot or every slot, would have met `h`. */
  lemma NotSeen(slots: seq<Slot>, seen: map<Handle, Entry>, at: map<Handle, nat>, h: Handle, i: nat)
    requires Layout(slots, seen, at) && i <= SLOTS
    requires forall d :: 0 <= d < i ==> slots[At(h, d)].handle != Some(h)
    requires i < SLOTS ==> slots[At(h, i)].handle.None?
    ensures h !in seen
  {
    hide At;
  }

  lemma LayoutUpdate(slots: seq<Slot>, seen: map<Handle, Entry>, at: map<Handle, nat>, k: nat,
                     h: Handle, e: Entry)
    requires Layout(slots, seen, at) && k < SLOTS && slots[k].handle == Some(h)
    ensures h in seen && seen[h] == slots[k].entry
    ensures Layout(slots[k := Slot(Some(h), e)], seen[h := e], at)
  {
    hide At;
  }

  lemma LayoutInsert(slots: seq<Slot>, seen: map<Handle, Entry>, at: map<Handle, nat>, i: nat,
                     h: Handle, e: Entry)
    requires Layout(slots, seen, at) && i < SLOTS && h !in seen
    requires slots[At(h, i)].handle.None?
    requires forall d :: 0 <= d < i ==> slots[At(h, d)].handle.Some?
    ensures Layout(slots[At(h, i) := Slot(Some(h), e)], seen[h := e], at[h := i])
  {
    hide At;
  }

  class Table {
    const slots: array<Slot>
    ghost var seen: map<Handle, Entry>
    ghost var at: map<Handle, nat>

    ghost predicate Valid()
      reads this, slots
    {
      slots.Length == SLOTS && Layout(slots[..], seen, at)
    }

    constructor ()
      ensures Valid() && fresh(slots) && seen == map[]
    {
      slots := new Slot[SLOTS](_ => Slot(None, Entry(0, 0, 0)));
      seen, at := map[], map[];
    }

    /** Find the frame's blob, or room for it, along its probe. */
    method Observe(h: Handle, hash: Hash, max: nat) returns (record: bool)
      requires Valid()
      modifies this, slots
      ensures Valid()
      ensures (seen, record) == Observed(old(seen), h, hash, max)
    {
      hide At, Layout;
      FullWhen(slots[..], seen, at);
      for i := 0 to SLOTS
        invariant Valid() && seen == old(seen) && at == old(at) && slots[..] == old(slots[..])
        invariant forall d :: 0 <= d < i ==>
                    slots[At(h, d)].handle.Some? && slots[At(h, d)].handle != Some(h)
      {
        var k := At(h, i);
        var slot := slots[k];
        if slot.handle == Some(h) {
          var e := slot.entry;
          if e.hash == hash {
            LayoutUpdate(slots[..], seen, at, k, h, e);
            return false;
          }
          record := e.kept < max;
          e := if record then Entry(hash, e.kept + 1, e.dropped)
               else Entry(hash, e.kept, e.dropped + 1);
          LayoutUpdate(slots[..], seen, at, k, h, e);
          slots[k] := Slot(Some(h), e);
          seen := seen[h := e];
          return;
        }
        if slot.handle.None? {
          var e := Entry(hash, 1, 0);
          NotSeen(slots[..], seen, at, h, i);
          LayoutInsert(slots[..], seen, at, i, h, e);
          slots[k] := Slot(Some(h), e);
          seen, at := seen[h := e], at[h := i];
          return true;
        }
      }
      NotSeen(slots[..], seen, at, h, SLOTS);
      forall i | 0 <= i < SLOTS ensures slots[i].handle.Some? {
        var d := ProbeCovers(h, i);
        assert slots[At(h, d)].handle.Some?;
      }
      return true;
    }
  }
}
