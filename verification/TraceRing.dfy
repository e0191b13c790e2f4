/** The trace recorder's state: the record ring and the resource log, as the hooks change them. */
module TraceRing {
  import opened Bytes
  import opened TraceFormat
  import opened TraceShape
  import opened TraceMerge
  import BlobTable

  const RES_MAX: nat := 4_194_304

  function RoundUp8(n: nat): (r: nat)
    ensures n <= r < n + 8 && r % 8 == 0
  {
    (n + 7) / 8 * 8
  }

  /** A head that reaches the end starts over. */
  function Wrap(cap: nat, head: nat): nat { if head >= cap then 0 else head }

  /** Where a record of `need` bytes goes: after a pad of the room left at the end, or where the
      head is, absorbing a sliver too short for a header. */
  datatype Place = Place(pad: nat, total: nat)

  function PlaceFor(cap: nat, head: nat, need: nat): Place
    requires head <= cap
  {
    var room := cap - head;
    if room < need then Place(room, need)
    else Place(0, if room - need < HEADER then room else need)
  }

  /** `gone` is the fewest of the oldest chunks to let go for the rest to fit in `room`. */
  ghost predicate FewestGone(live: seq<Chunk>, gone: nat, room: int) {
    && gone <= |live|
    && |Flat(live[gone..])| <= room
    && (gone > 0 ==> |Flat(live[gone - 1..])| > room)
  }

  /** The chunks in the ring against the history: their records are the ones numbered from
      `evicted`, and every record accepted is there or counted as evicted. */
  ghost predicate Counted(number: nat, evicted: nat, live: seq<Chunk>, log: seq<Record>) {
    && number == |log| && evicted <= number
    && Kept(live) == log[evicted..]
    && forall i :: 0 <= i < number ==> log[i].number == i
  }

  lemma EvictCounted(number: nat, evicted: nat, live: seq<Chunk>, log: seq<Record>)
    requires Counted(number, evicted, live, log) && live != []
    ensures Counted(number, evicted + (if live[0].Rec? then 1 else 0), live[1..], log)
    ensures Kept(live[..1]) == if live[0].Rec? then [live[0].r] else []
  {
    assert live[..1][1..] == [];
    if live[0].Rec? {
      assert log[evicted..][1..] == log[evicted + 1..];
      assert Kept(live)[1..] == Kept(live[1..]);
    }
  }

  lemma AppendCounted(number: nat, evicted: nat, live: seq<Chunk>, log: seq<Record>, c: Chunk)
    requires Counted(number, evicted, live, log)
    requires c.Rec? ==> c.r.number == number
    ensures c.Pad? ==> Counted(number, evicted, live + [c], log)
    ensures c.Rec? ==> Counted(number + 1, evicted, live + [c], log + [c.r])
  {
    KeptAppend(live, [c]);
    assert [c][1..] == [];
    assert Kept([c]) == if c.Rec? then [c.r] else [];
    if c.Rec? {
      assert (log + [c.r])[evicted..] == log[evicted..] + [c.r];
    }
  }

  ghost predicate Logged(res: seq<seq<Byte>>, stamps: seq<Stamped<ResEvent>>) {
    && |res| == |stamps| <= RES_MAX
    && forall i :: 0 <= i < |res| ==> res[i] == EncodeRes(stamps[i].event, stamps[i].stamp)
  }

  lemma WordsNone()
    ensures forall ws: seq<Word> :: WordBytes(ws[..0]) == []
  {
  }

  lemma {:induction false} WordsNext(ws: seq<Word>, i: nat)
    requires i < |ws|
    ensures WordBytes(ws[..i + 1]) == WordBytes(ws[..i]) + Le(ws[i], 4)
  {
    hide Le;
    if i == 0 {
      assert ws[..1][1..] == [];
    } else {
      WordsNext(ws[1..], i - 1);
      assert ws[..i + 1][1..] == ws[1..][..i] && ws[..i][1..] == ws[1..][..i - 1];
    }
  }

  /** `now` is `was` without its oldest `gone`, none of which could stay if `n` bytes were to go
      in beside it and `newer`; `lost` of them were records. */
  ghost predicate Dropped(was: seq<Chunk>, now: seq<Chunk>, newer: seq<Chunk>, n: int, cap: nat,
                          gone: nat, lost: int)
  {
    && gone <= |was| && now == was[gone..] && lost == |Kept(was[..gone])|
    && (gone > 0 ==> |Flat(was[gone - 1..])| + |Flat(newer)| + n > cap)
  }

  lemma DroppedNone(was: seq<Chunk>, newer: seq<Chunk>, n: int, cap: nat)
    ensures Dropped(was, was, newer, n, cap, 0, 0)
  {
  }

  lemma DroppedNext(was: seq<Chunk>, now: seq<Chunk>, newer: seq<Chunk>, n: int, cap: nat, gone: nat, lost: int)
    requires Dropped(was, now, newer, n, cap, gone, lost) && now != []
    requires |Flat(now)| + |Flat(newer)| + n > cap
    ensures Dropped(was, now[1..], newer, n, cap, gone + 1, lost + |Kept(now[..1])|)
  {
    hide Flat, Kept;
    KeptAppend(was[..gone], now[..1]);
    assert was[..gone + 1] == was[..gone] + now[..1];
  }

  /** `after` is what is left of the ring once room is cleared for `need` bytes: the fewest of the
      oldest chunks gone, `lost` records among them, and a pad where one was needed. */
  ghost predicate Cleared(before: seq<Chunk>, after: seq<Chunk>, cap: nat, need: nat,
                          gone: nat, pad: seq<Chunk>, lost: int)
  {
    && FewestGone(before, gone, cap - |Flat(pad)| - need)
    && after == before[gone..] + pad && lost == |Kept(before[..gone])|
  }

  lemma ClearedAhead(older: seq<Chunk>, newer: seq<Chunk>, now: seq<Chunk>, need: nat, cap: nat, gone: nat, lost: int)
    requires Dropped(older, now, newer, need, cap, gone, lost)
    requires |Flat(now)| + |Flat(newer)| + need <= cap
    ensures Cleared(older + newer, now + newer, cap, need, gone, [], lost)
  {
    FlatEmpty();
    hide Flat, Kept;
    FlatAppend(older[gone..], newer);
    assert (older + newer)[gone..] == now + newer;
    assert (older + newer)[..gone] == older[..gone];
    if gone > 0 {
      FlatAppend(older[gone - 1..], newer);
      assert (older + newer)[gone - 1..] == older[gone - 1..] + newer;
    }
  }

  /** Everything older goes to make room for the pad, then as much of the rest as it takes. */
  lemma ClearedAround(older: seq<Chunk>, newer: seq<Chunk>, p: Chunk, now: seq<Chunk>, need: nat, cap: nat,
                      lost: int, gone: nat, more: int)
    requires Dropped(older, [], newer, Size(p), cap, |older|, lost)
    requires Dropped(newer + [p], now, [], need, cap, gone, more) && gone <= |newer|
    requires |Flat(now)| + need <= cap
    ensures Cleared(older + newer, now, cap, need, |older| + gone, [p], lost + more)
  {
    FlatEmpty();
    FlatOne(p);
    hide Flat, Size, Encode, Kept;
    var (live, run) := (older + newer, newer + [p]);
    var all := |older| + gone;
    assert older[..|older|] == older;
    FlatNext(newer[gone..], p);
    assert live[all..] == newer[gone..];
    assert run[gone..] == newer[gone..] + [p];
    KeptAppend(older, newer[..gone]);
    assert live[..all] == older + newer[..gone];
    assert run[..gone] == newer[..gone];
    if gone > 0 {
      FlatNext(newer[gone - 1..], p);
      assert live[all - 1..] == newer[gone - 1..];
      assert run[gone - 1..] == newer[gone - 1..] + [p];
    } else if older != [] {
      FlatAppend(older[|older| - 1..], newer);
      assert live[all - 1..] == older[|older| - 1..] + newer;
    }
  }

  lemma PadIsLast(newer: seq<Chunk>, p: Chunk, run: seq<Chunk>)
    requires run == newer + [p]
    ensures |run| == |newer| + 1 && |Flat(run[|run| - 1..])| == |Flat([p])| == Size(p) && Flat([]) == []
  {
    FlatOne(p);
    assert run[|run| - 1..] == [p];
  }

  lemma NothingKept(run: seq<Chunk>)
    ensures |Flat(run[|run|..])| == 0 && run[..|run|] == run
  {
  }

  /** Where the record ends up, at most one pad before it, and what a `put` let go of. */
  ghost predicate Placed(before: seq<Chunk>, after: seq<Chunk>, cap: nat, place: Place, gone: nat,
                         pad: seq<Chunk>, c: Chunk) {
    && Size(c) == place.total
    && |Flat(pad)| == place.pad
    && (if place.pad == 0 then pad == [] else |pad| == 1 && pad[0].Pad?)
    && FewestGone(before, gone, cap - place.pad - place.total)
    && after == before[gone..] + pad + [c]
  }

  lemma HeadRoom(r: Ring)
    requires Shape(r) && 2 * HEADER <= |r.bytes|
    ensures r.head + HEADER <= |r.bytes|
  {
  }

  lemma NewerFits(r: Ring)
    requires Shape(r)
    ensures |Flat(r.newer)| <= r.head
  {
  }

  lemma SlackSize(r: Record, slack: nat)
    ensures Size(Rec(r, slack)) == RawSize(|r.aux|, |r.payload|) + slack
  {
  }

  /** Once `n` bytes fit and the room after the head is enough, they are free from the head on. */
  lemma RoomAhead(r: Ring, n: nat)
    requires Shape(r) && Used(r) + n <= |r.bytes| && r.head + n <= |r.bytes|
    ensures r.head + n <= if r.older == [] then |r.bytes| else r.tail
  {
  }

  /** While the ring has wrapped, the room at the end is not free. */
  lemma RoomMeansUnwrapped(r: Ring)
    requires Shape(r) && Used(r) + |r.bytes| - r.head <= |r.bytes|
    ensures r.older == []
  {
  }

  lemma NumberIsCount(number: nat, evicted: nat, live: seq<Chunk>, log: seq<Record>)
    requires Counted(number, evicted, live, log)
    ensures number == |log|
  {
  }

  lemma FlatResNone()
    ensures forall es: seq<Stamped<ResEvent>> :: FlatRes(es[..0]) == []
  {
  }

  lemma FlatResNext(es: seq<Stamped<ResEvent>>, i: nat)
    requires i < |es|
    ensures FlatRes(es[..i + 1]) == FlatRes(es[..i]) + EncodeRes(es[i].event, es[i].stamp)
  {
    hide EncodeRes;
    FlatResAppend(es[..i], [es[i]]);
    assert es[..i + 1] == es[..i] + [es[i]];
    assert [es[i]][1..] == [];
  }

  /** Taking what is left before the end, or all that is wanted, and going on from there. */
  lemma AroundStep(b: seq<Byte>, pos: nat, left: nat, chunk: nat)
    requires pos < |b| && left <= |b| && chunk == if |b| - pos < left then |b| - pos else left
    ensures Around(b, pos, left)[..chunk] == b[pos..pos + chunk]
    ensures Around(b, if pos + chunk >= |b| then 0 else pos + chunk, left - chunk)
         == Around(b, pos, left)[chunk..]
  {
  }

  lemma SplitAt<T>(s: seq<T>, at: nat, n: nat)
    requires at + n <= |s|
    ensures s[..at + n] == s[..at] + s[at..][..n] && s[at..][n..] == s[at + n..]
  {
  }

  /** A ring with anything in it has its tail before the end. */
  lemma TailInside(r: Ring)
    requires Shape(r) && Used(r) <= |r.bytes|
    ensures |Flat(Live(r))| == Used(r) && (Used(r) > 0 ==> r.tail < |r.bytes|)
  {
    hide Flat;
    FlatEmpty();
    FlatAppend(r.older, r.newer);
  }

  /** What a `put` can change, at one moment. */
  datatype Snapshot = Snapshot(ring: Ring, number: nat, evicted: nat, refused: nat,
                               history: seq<Item<Record, ResEvent>>)

  /** What recording one thing does: over half the ring it is refused and nothing changes; else it
      is the newest record, and what was let go of is the fewest of the oldest that make room. */
  ghost predicate Recorded(was: Snapshot, now: Snapshot, kind: Kind, cmd: Byte, ctx: Option<Word>, aux: seq<Word>,
                           payload: seq<Byte>, mono: nat, gone: nat, pad: seq<Chunk>)
  {
    var (cap, raw) := (|was.ring.bytes|, RawSize(|aux|, |payload|));
    var need := RoundUp8(raw);
    if need > cap / 2 then now == was.(refused := was.refused + 1)
    else
      && was.ring.head <= cap
      && var (place, before) := (PlaceFor(cap, was.ring.head, need), Live(was.ring));
         && now.refused == was.refused && now.number == was.number + 1
         && now.history == was.history + [Did(Record(kind, cmd, ctx, was.number, mono, aux, payload))]
         && place.total >= raw
         && Placed(before, Live(now.ring), cap, place, gone, pad,
                   Rec(Record(kind, cmd, ctx, was.number, mono, aux, payload), place.total - raw))
         && now.evicted == was.evicted + |Kept(before[..gone])|
         && now.ring.head == Wrap(cap, (if place.pad > 0 then 0 else was.ring.head) + place.total)
  }

  /** The room a record of `need` bytes takes: a sliver after it too short for a header with it. */
  function Fitted(cap: nat, head: nat, need: nat): nat {
    if head + need <= cap < head + need + HEADER then cap - head else need
  }

  /** Where `put` decides to write is where `Recorded` says. */
  lemma PlaceIs(cap: nat, head: nat, need: nat, total: nat)
    requires head + HEADER <= cap && need <= cap / 2
    requires total == Fitted(cap, head, need)
    ensures PlaceFor(cap, head, need) == Place(if head + total <= cap then 0 else cap - head, total)
    ensures head + total + HEADER <= cap || head + total == cap || (head + total > cap && total <= cap / 2)
  {
  }

  lemma IsRecorded(was: Snapshot, now: Snapshot, r: Record, total: nat, gone: nat, pad: seq<Chunk>)
    requires var (cap, head, raw) := (|was.ring.bytes|, was.ring.head, RawSize(|r.aux|, |r.payload|));
             var need := RoundUp8(raw);
             && head + HEADER <= cap && need <= cap / 2 && r.number == was.number
             && total == Fitted(cap, head, need)
             && now.refused == was.refused && now.number == was.number + 1
             && now.history == was.history + [Did(r)]
             && var place := Place(if head + total <= cap then 0 else cap - head, total);
                && Placed(Live(was.ring), Live(now.ring), cap, place, gone, pad, Rec(r, total - raw))
                && now.evicted == was.evicted + |Kept(Live(was.ring)[..gone])|
                && now.ring.head == Wrap(cap, (if place.pad > 0 then 0 else head) + total)
    ensures Recorded(was, now, r.kind, r.cmd, r.ctx, r.aux, r.payload, r.mono, gone, pad)
  {
    hide Placed, Kept, Flat, RoundUp8, Wrap;
    PlaceIs(|was.ring.bytes|, was.ring.head, RoundUp8(RawSize(|r.aux|, |r.payload|)), total);
  }

  /** What recording comes to, said of the ring alone. A record over half of it, rounded up to eight
      bytes, is turned away. Any other is the newest in the history and the last chunk, and is its
      rounded length long, unless that would leave room before the end for less than a header: then
      it runs to the end. A pad is there exactly when the record would have run past the end, and
      fills the room there was. What was let go of is the oldest, and nothing that could have
      stayed: none at all where everything fits. */
  lemma RecordedMeans(was: Snapshot, now: Snapshot, kind: Kind, cmd: Byte, ctx: Option<Word>, aux: seq<Word>,
                      payload: seq<Byte>, mono: nat, gone: nat, pad: seq<Chunk>)
    requires Recorded(was, now, kind, cmd, ctx, aux, payload, mono, gone, pad) && Shape(was.ring)
    ensures var (cap, head, before, after) := (|was.ring.bytes|, was.ring.head, Live(was.ring), Live(now.ring));
            var raw := 32 + 4 * |aux| + |payload|;
            var need := RoundUp8(raw);
            if need > cap / 2 then now == was.(refused := was.refused + 1)
            else
              && now.refused == was.refused && now.number == was.number + 1
              && now.history == was.history + [Did(Record(kind, cmd, ctx, was.number, mono, aux, payload))]
              && gone <= |before| && after != [] && after == before[gone..] + pad + [after[|after| - 1]]
              && var c := after[|after| - 1];
                 var start := if pad == [] then head else 0;
                 var taken := Size(c) + if pad == [] then 0 else cap - head;
                 && c.Rec? && c.r == Record(kind, cmd, ctx, was.number, mono, aux, payload)
                 && Size(c) == raw + c.slack && c.slack < 8 + 32
                 && (if head + need < cap < head + need + 32 then head + Size(c) == cap else Size(c) == need)
                 && (pad != [] <==> head + need > cap)
                 && (pad != [] ==> |pad| == 1 && pad[0].Pad? && Size(pad[0]) == cap - head)
                 && |Flat(before[gone..])| + taken <= cap
                 && (gone > 0 ==> |Flat(before[gone - 1..])| + taken > cap)
                 && (gone == 0 <==> |Flat(before)| + taken <= cap)
                 && now.evicted == was.evicted + |Kept(before[..gone])|
                 && now.ring.head == if start + Size(c) < cap then start + Size(c) else 0
  {
    hide Flat, Encode, Kept, Shape;
    if RoundUp8(RawSize(|aux|, |payload|)) <= |was.ring.bytes| / 2 {
      var before := Live(was.ring);
      HeadRoom(was.ring);
      assert before[0..] == before;
      if pad != [] {
        assert pad == [pad[0]];
        FlatOne(pad[0]);
      } else {
        FlatEmpty();
      }
      if gone > 0 {
        FlatShrinks(before, gone - 1);
      }
    }
  }

  /** A shorter tail of a run is no longer in bytes. */
  lemma FlatShrinks(cs: seq<Chunk>, i: nat)
    requires i <= |cs|
    ensures |Flat(cs[i..])| <= |Flat(cs)|
  {
    FlatAppend(cs[..i], cs[i..]);
    assert cs[..i] + cs[i..] == cs;
  }

  /** Recording leaves every chunk's length readable exactly when the new one's fits its field: what
      stays was readable, and a pad is shorter than the record it makes way for. */
  lemma StaysReadable(was: Snapshot, now: Snapshot, kind: Kind, cmd: Byte, ctx: Option<Word>, aux: seq<Word>,
                      payload: seq<Byte>, mono: nat, gone: nat, pad: seq<Chunk>)
    requires Recorded(was, now, kind, cmd, ctx, aux, payload, mono, gone, pad)
    requires Short(Live(was.ring)) && was.ring.head + HEADER <= |was.ring.bytes|
    requires RoundUp8(RawSize(|aux|, |payload|)) <= |was.ring.bytes| / 2
    ensures Short(Live(now.ring))
            <==> Fitted(|was.ring.bytes|, was.ring.head, RoundUp8(RawSize(|aux|, |payload|))) < U32
  {
    hide Flat, Size, Kept, RoundUp8, Short;
    var (cap, head, raw) := (|was.ring.bytes|, was.ring.head, RawSize(|aux|, |payload|));
    var need := RoundUp8(raw);
    var place := PlaceFor(cap, head, need);
    PlaceIs(cap, head, need, Fitted(cap, head, need));
    var c := Rec(Record(kind, cmd, ctx, was.number, mono, aux, payload), place.total - raw);
    var kept := Live(was.ring)[gone..];
    assert Live(was.ring) == Live(was.ring)[..gone] + kept;
    ShortBoth(Live(was.ring)[..gone], kept);
    ShortBoth(kept + pad, [c]);
    ShortBoth(kept, pad);
    ShortOne(c);
    if pad == [] {
      ShortNone();
    } else {
      assert pad == [pad[0]];
      ShortOne(pad[0]);
    }
  }

  lemma ShortNone()
    ensures Short([])
  {
  }

  lemma ShortOne(c: Chunk)
    ensures |Flat([c])| == Size(c) && (Short([c]) <==> Size(c) < U32)
  {
    FlatOne(c);
    assert [c][0] == c;
  }

  class State {
    const buf: array<Byte>
    const blobs: BlobTable.Table
    const realtime: nat
    var head: nat
    var tail: nat
    var used: nat
    var number: nat
    var evicted: nat
    var refused: nat
    var res: seq<seq<Byte>>
    var resFull: bool

    ghost var older: seq<Chunk>
    ghost var newer: seq<Chunk>
    /** Everything recorded, in the order it came. */
    ghost var history: seq<Item<Record, ResEvent>>

    ghost function Shaped(): Ring
      reads this, buf
    {
      Ring(buf[..], head, tail, older, newer)
    }

    ghost function Now(): Snapshot
      reads this, buf
    {
      Snapshot(Shaped(), number, evicted, refused, history)
    }

    ghost function Chunks(): seq<Chunk>
      reads this
    {
      older + newer
    }

    /** Every record ever accepted. */
    ghost function Log(): seq<Record>
      reads this
    {
      RecordsOf(history)
    }

    ghost predicate Valid()
      reads this, buf, blobs, blobs.slots
    {
      && Shape(Shaped()) && used == Used(Shaped())
      && Counted(number, evicted, Chunks(), Log())
      && Logged(res, StampsOf(history, 0))
      && blobs.Valid()
    }

    constructor (bytes: nat, realtime: nat)
      ensures Valid() && fresh(buf) && fresh(blobs) && fresh(blobs.slots)
      ensures buf.Length == bytes && history == [] && Chunks() == [] && evicted == refused == 0
    {
      buf := new Byte[bytes](_ => 0);
      blobs := new BlobTable.Table();
      this.realtime := realtime;
      head, tail, used, number, evicted, refused := 0, 0, 0, 0, 0, 0;
      res, resFull := [], false;
      older, newer, history := [], [], [];
    }

    /** `copy_from_slice` into the ring. */
    method Copy(at: nat, s: seq<Byte>)
      requires at + |s| <= buf.Length
      modifies buf
      ensures buf[..] == Splice(old(buf[..]), at, s)
    {
      forall i | 0 <= i < |s| {
        buf[at + i] := s[i];
      }
    }

    method WriteHeader(at: nat, total: nat, kind: Byte, cmd: Byte, ctx: nat, seqno: nat, mono: nat,
                       payload: nat, aux: nat)
      requires at + HEADER <= buf.Length
      modifies buf
      ensures buf[..] == Splice(old(buf[..]), at, Header(total, kind, cmd, ctx, seqno, mono, payload, aux))
    {
      hide Le, Splice;
      ghost var was := buf[..];
      Copy(at, Le(total, 4));
      Copy(at + 4, [kind, cmd]);
      SpliceSplice(was, at, Le(total, 4), [kind, cmd]);
      Copy(at + 6, Le(ctx, 2));
      SpliceSplice(was, at, Le(total, 4) + [kind, cmd], Le(ctx, 2));
      Copy(at + 8, Le(seqno, 8));
      SpliceSplice(was, at, Le(total, 4) + [kind, cmd] + Le(ctx, 2), Le(seqno, 8));
      Copy(at + 16, Le(mono, 8));
      SpliceSplice(was, at, Le(total, 4) + [kind, cmd] + Le(ctx, 2) + Le(seqno, 8), Le(mono, 8));
      Copy(at + 24, Le(payload, 4));
      SpliceSplice(was, at, Le(total, 4) + [kind, cmd] + Le(ctx, 2) + Le(seqno, 8) + Le(mono, 8),
                   Le(payload, 4));
      Copy(at + 28, Le(aux, 4));
      SpliceSplice(was, at, Le(total, 4) + [kind, cmd] + Le(ctx, 2) + Le(seqno, 8) + Le(mono, 8)
                   + Le(payload, 4), Le(aux, 4));
    }

    /** Let go of the oldest chunk, by what its own header says it is. */
    method EvictOne()
      requires Valid() && older != [] && Size(older[0]) < U32
      modifies this`tail, this`used, this`older, this`evicted
      ensures Valid() && older == old(older)[1..]
      ensures used + Size(old(older)[0]) == old(used)
      ensures evicted == old(evicted) + |Kept(old(older)[..1])|
    {
      hide Shape, Flat, Encode, Size, FromLe, Counted, Kept, Logged, BlobTable.Table.Valid;
      EvictKeepsShape(Shaped());
      EvictCounted(number, evicted, older + newer, Log());
      assert (older + newer)[..1] == older[..1] && (older + newer)[1..] == older[1..] + newer;
      var total := FromLe(buf[tail..tail + 4]);
      var pad := buf[tail + 4] == PAD;
      assert buf[..][tail..tail + 4] == buf[tail..tail + 4];
      tail := tail + total;
      if tail >= buf.Length {
        tail := 0;
      }
      used := used - total;
      older := older[1..];
      if !pad {
        evicted := evicted + 1;
      }
    }

    /** Evict while `n` bytes do not fit. The guard never holds of an empty ring, nor of one down
        to the last `keep` chunks before the end. */
    method MakeRoom(n: nat, ghost keep: nat) returns (ghost gone: nat)
      requires Valid() && keep <= |older| && Short(older[..|older| - keep])
      requires |Flat(older[|older| - keep..])| + |Flat(newer)| + n <= buf.Length
      modifies this`tail, this`used, this`older, this`evicted
      ensures Valid() && gone + keep <= |old(older)| && used + n <= buf.Length
      ensures Dropped(old(older), older, newer, n, buf.Length, gone, evicted - old(evicted))
    {
      hide Shape, Flat, Size, Counted, Kept, Logged, BlobTable.Table.Valid, Dropped;
      gone := 0;
      ghost var was := older;
      DroppedNone(was, newer, n, buf.Length);
      while used + n > buf.Length
        invariant Valid() && gone + keep <= |was| && older == was[gone..]
        invariant Dropped(was, older, newer, n, buf.Length, gone, evicted - old(evicted))
        decreases |older|
      {
        if gone + keep == |was| {
          assert false;
        }
        DroppedNext(was, older, newer, n, buf.Length, gone, evicted - old(evicted));
        assert older[0] == was[..|was| - keep][gone];
        EvictOne();
        gone := gone + 1;
      }
    }

    /** Write a record's header, words, payload and the zeros up to its length. */
    method WriteRecord(at: nat, r: Record, slack: nat)
      requires at + Size(Rec(r, slack)) <= buf.Length
      modifies buf
      ensures buf[..] == Splice(old(buf[..]), at, Encode(Rec(r, slack)))
    {
      hide Splice, Header, WordBytes, Le;
      ghost var was := buf[..];
      var total := Size(Rec(r, slack));
      WriteHeader(at, total, r.kind.Code(), r.cmd, CtxField(r.ctx), r.number, r.mono, |r.payload|, |r.aux|);
      ghost var h := Header(total, r.kind.Code(), r.cmd, CtxField(r.ctx), r.number, r.mono,
                            |r.payload|, |r.aux|);
      var p := at + HEADER;
      WordsNone();
      assert h + [] == h;
      for i := 0 to |r.aux|
        invariant p == at + HEADER + 4 * i
        invariant buf[..] == Splice(was, at, h + WordBytes(r.aux[..i]))
      {
        Copy(p, Le(r.aux[i], 4));
        SpliceSplice(was, at, h + WordBytes(r.aux[..i]), Le(r.aux[i], 4));
        WordsNext(r.aux, i);
        assert h + WordBytes(r.aux[..i]) + Le(r.aux[i], 4) == h + WordBytes(r.aux[..i + 1]);
        p := p + 4;
      }
      assert r.aux[..|r.aux|] == r.aux;
      Copy(p, r.payload);
      SpliceSplice(was, at, h + WordBytes(r.aux), r.payload);
      p := p + |r.payload|;
      Copy(p, Zeros(slack));
      SpliceSplice(was, at, h + WordBytes(r.aux) + r.payload, Zeros(slack));
    }

    /** Pad over the room after the head. */
    method WritePad() returns (ghost pad: Chunk)
      requires Valid() && 2 * HEADER <= buf.Length && older == []
      modifies this`used, this`older, this`newer, this`head, buf
      ensures Valid() && head == 0 && newer == []
      ensures pad.Pad? && Size(pad) == buf.Length - old(head) && older == old(newer) + [pad]
    {
      hide Shape, Flat, Size, Counted, Kept, Logged, Encode, Header, BlobTable.Table.Valid, Splice,
        RecordsOf, StampsOf;
      ghost var shaped := Shaped();
      HeadRoom(shaped);
      PadKeepsShape(shaped);
      var room := buf.Length - head;
      pad := Pad(shaped.bytes[head + HEADER..]);
      SizeOfPad(shaped.bytes[head + HEADER..]);
      assert older + newer == newer && newer + [pad] + [] == newer + [pad];
      AppendCounted(number, evicted, newer, Log(), pad);
      WriteHeader(head, room, PAD, 0, 0, 0, 0, 0, 0);
      used := used + room;
      head := 0;
      older, newer := newer + [pad], [];
      assert Shaped() == Padded(shaped);
    }

    /** Let go of everything older than the head, and pad over the room after it. */
    method PadOut() returns (ghost pad: Chunk)
      requires Valid() && 2 * HEADER <= buf.Length && Short(older)
      modifies this`tail, this`used, this`older, this`newer, this`evicted, this`head, buf
      ensures Valid() && head == 0 && newer == []
      ensures pad.Pad? && Size(pad) == buf.Length - old(head) && older == old(newer) + [pad]
      ensures Dropped(old(older), [], old(newer), buf.Length - old(head), buf.Length, |old(older)|,
                      evicted - old(evicted))
    {
      hide Shape, Flat, Size, Counted, Kept, Logged, Encode, Header, BlobTable.Table.Valid,
        RecordsOf, StampsOf, Used, Short;
      HeadRoom(Shaped());
      NewerFits(Shaped());
      NothingKept(older);
      ghost var gone := MakeRoom(buf.Length - head, 0);
      RoomMeansUnwrapped(Shaped());
      assert gone == |old(older)|;
      pad := WritePad();
    }

    /** Write an accepted record at the head. */
    method Append(r: Record, slack: nat)
      requires Valid() && 2 * HEADER <= buf.Length && r.number == number
      requires head + Size(Rec(r, slack)) <= if older == [] then buf.Length else tail
      requires head + Size(Rec(r, slack)) + HEADER <= buf.Length || head + Size(Rec(r, slack)) == buf.Length
      modifies this`number, this`used, this`older, this`newer, this`head, this`history, buf
      ensures Valid() && history == old(history) + [Did(r)] && number == old(number) + 1
      ensures Chunks() == old(Chunks()) + [Rec(r, slack)]
      ensures head == Wrap(buf.Length, old(head) + Size(Rec(r, slack)))
    {
      hide Shape, Flat, Size, Counted, Kept, Logged, Encode, BlobTable.Table.Valid, Splice,
        RecordsOf, StampsOf;
      var c := Rec(r, slack);
      ghost var shaped := Shaped();
      AppendKeepsShape(shaped, c);
      AppendCounted(number, evicted, Chunks(), Log(), c);
      RecordsAppend(history, Did(r));
      StampsAppend(history, 0, Did(r));
      assert StampsOf(history, 0) + [] == StampsOf(history, 0);
      WriteRecord(head, r, slack);
      number := number + 1;
      head := head + Size(c);
      used := used + Size(c);
      if head >= buf.Length {
        head := 0;
        older, newer := older + newer + [c], [];
      } else {
        newer := newer + [c];
      }
      history := history + [Did(r)];
      assert Shaped() == Appended(shaped, c);
    }

    /** Free `need` bytes at the head, first padding out the end if they do not fit before it. */
    method Clear(need: nat) returns (ghost gone: nat, ghost pad: seq<Chunk>)
      requires Valid() && 2 * HEADER <= buf.Length && Readable()
      requires head + need <= buf.Length || need <= buf.Length / 2
      modifies this`tail, this`used, this`older, this`newer, this`evicted, this`head, buf
      ensures Valid() && head == if |pad| > 0 then 0 else old(head)
      ensures head + need <= if older == [] then buf.Length else tail
      ensures pad == [] <==> old(head) + need <= buf.Length
      ensures pad == [] || (|pad| == 1 && pad[0].Pad? && |Flat(pad)| == buf.Length - old(head))
      ensures Cleared(old(Chunks()), Chunks(), buf.Length, need, gone, pad, evicted - old(evicted))
    {
      hide Shape, Flat, Size, Counted, Kept, Logged, Encode, BlobTable.Table.Valid, Dropped, Cleared,
        RecordsOf, StampsOf, Short;
      if head + need > buf.Length {
        gone, pad := ClearAround(need);
      } else {
        NothingKept(older);
        NewerFits(Shaped());
        ShortBoth(older, newer);
        pad := [];
        ghost var was := older;
        gone := MakeRoom(need, 0);
        ClearedAhead(was, newer, older, need, buf.Length, gone, evicted - old(evicted));
      }
      RoomAhead(Shaped(), need);
    }

    /** Free `need` bytes at the start, past a pad of the room at the end. */
    method ClearAround(need: nat) returns (ghost gone: nat, ghost pad: seq<Chunk>)
      requires Valid() && 2 * HEADER <= buf.Length && Readable()
      requires head + need > buf.Length && need <= buf.Length / 2
      modifies this`tail, this`used, this`older, this`newer, this`evicted, this`head, buf
      ensures Valid() && head == 0 && used + need <= buf.Length
      ensures |pad| == 1 && pad[0].Pad? && |Flat(pad)| == buf.Length - old(head)
      ensures Cleared(old(Chunks()), Chunks(), buf.Length, need, gone, pad, evicted - old(evicted))
    {
      hide Shape, Flat, Size, Counted, Kept, Logged, Encode, BlobTable.Table.Valid, Dropped, Cleared,
        RecordsOf, StampsOf, Short;
      HeadRoom(Shaped());
      ghost var (was, run) := (older, newer);
      ShortBoth(was, run);
      var p := PadOut();
      ghost var lost := evicted - old(evicted);
      pad := [p];
      PadIsLast(run, p, older);
      assert older[..|older| - 1] == run;
      gone := MakeRoom(need, 1);
      ClearedAround(was, run, p, older, need, buf.Length, lost, gone, evicted - old(evicted) - lost);
      gone := |was| + gone;
      assert older + [] == older;
    }

    /** Free the room an accepted record takes, and write it there. */
    method Accept(r: Record, total: nat) returns (ghost gone: nat, ghost pad: seq<Chunk>)
      requires Valid() && Readable() && 2 * HEADER <= buf.Length && r.number == number
      requires var need := RoundUp8(RawSize(|r.aux|, |r.payload|));
               && need <= buf.Length / 2
               && total == Fitted(buf.Length, head, need)
      modifies this`head, this`tail, this`used, this`number, this`evicted, this`older, this`newer,
               this`history, buf
      ensures Valid()
      ensures Recorded(old(Now()), Now(), r.kind, r.cmd, r.ctx, r.aux, r.payload, r.mono, gone, pad)
    {
      hide Shape, Flat, Size, Counted, Kept, Logged, Encode, BlobTable.Table.Valid,
        RecordsOf, StampsOf, Used, FewestGone, RoundUp8, Recorded;
      HeadRoom(Shaped());
      FlatEmpty();
      PlaceIs(buf.Length, head, RoundUp8(RawSize(|r.aux|, |r.payload|)), total);
      SlackSize(r, total - RawSize(|r.aux|, |r.payload|));
      gone, pad := Clear(total);
      Append(r, total - RawSize(|r.aux|, |r.payload|));
      IsRecorded(old(Now()), Now(), r, total, gone, pad);
    }

    /** Every live chunk's length fits its 32-bit field, so eviction can read it back. */
    ghost predicate Readable()
      reads this
    {
      Short(Chunks())
    }

    /** The ring is too small for a record, or the record's length fits its 32-bit field. */
    ghost predicate Storable(aux: nat, payload: nat)
      reads this
    {
      var need := RoundUp8(RawSize(aux, payload));
      need > buf.Length / 2 || Fitted(buf.Length, head, need) < U32
    }

    /** Record one thing, letting go of the oldest ones whose room it needs. */
    method Put(kind: Kind, cmd: Byte, ctx: Option<Word>, aux: seq<Word>, payload: seq<Byte>, mono: nat)
      returns (ghost gone: nat, ghost pad: seq<Chunk>)
      requires Valid() && Readable()
      modifies this`head, this`tail, this`used, this`number, this`evicted, this`refused, this`older,
               this`newer, this`history, buf
      ensures Valid()
      ensures Recorded(old(Now()), Now(), kind, cmd, ctx, aux, payload, mono, gone, pad)
      ensures Readable() <==> old(Storable(|aux|, |payload|))
    {
      hide Shape, Flat, Size, Counted, Kept, Logged, Encode, BlobTable.Table.Valid,
        RecordsOf, StampsOf, Used, Placed, RoundUp8, PlaceFor, Wrap;
      gone, pad := 0, [];
      var need := RoundUp8(RawSize(|aux|, |payload|));
      if need > buf.Length / 2 {
        refused := refused + 1;
        return;
      }
      HeadRoom(Shaped());
      var room := buf.Length - head;
      if room >= need && room - need < HEADER {
        need := room;
      }
      gone, pad := Accept(Record(kind, cmd, ctx, number, mono, aux, payload), need);
      StaysReadable(old(Now()), Now(), kind, cmd, ctx, aux, payload, mono, gone, pad);
      hide Recorded;
    }

    /** Add a resource event to the log, stamped with the number of records accepted so far. */
    method PutResource(ev: ResEvent)
      requires Valid()
      modifies this`res, this`resFull, this`history
      ensures Valid()
      ensures if |old(res)| == 4_194_304 then resFull && history == old(history)
              else resFull == old(resFull) && history == old(history) + [Res(ev)]
    {
      hide Shape, Counted, EncodeRes, RecordsOf, StampsOf, BlobTable.Table.Valid, Used;
      if |res| >= RES_MAX {
        resFull := true;
        return;
      }
      RecordsAppend(history, Res(ev));
      StampsAppend(history, 0, Res(ev));
      assert RecordsOf(history) + [] == RecordsOf(history);
      NumberIsCount(number, evicted, Chunks(), Log());
      res := res + [EncodeRes(ev, number)];
      history := history + [Res(ev)];
    }

    /** Record a blob's frame, unless the table says it need not be. */
    method PutBlob(h: Handle, bytes: seq<Byte>, mono: nat, max: nat)
      returns (recorded: bool, ghost gone: nat, ghost pad: seq<Chunk>)
      requires Valid() && Readable()
      modifies this`head, this`tail, this`used, this`number, this`evicted, this`refused, this`older,
               this`newer, this`history, buf, blobs, blobs.slots
      ensures Valid()
      ensures (blobs.seen, recorded) == BlobTable.Observed(old(blobs.seen), h, BlobTable.Fnv(bytes), max)
      ensures if recorded then Recorded(old(Now()), Now(), BlobData, 0, None, [h], bytes, mono, gone, pad)
              else Now() == old(Now())
      ensures Readable() <==> !recorded || old(Storable(1, |bytes|))
    {
      hide Shape, Counted, Logged, RecordsOf, StampsOf, BlobTable.Observed, Used, Recorded;
      gone, pad := 0, [];
      recorded := blobs.Observe(h, BlobTable.Fnv(bytes), max);
      if recorded {
        gone, pad := Put(BlobData, 0, None, [h], bytes, mono);
      }
    }

    ghost function DumpImage(): seq<Byte>
      reads this, buf
    {
      var log := StampsOf(history, 0);
      WordBytes(DumpWords(buf.Length, used, number, evicted, realtime, |log|, resFull))
      + FlatRes(log) + Flat(Chunks())
    }

    /** The resource log's events, one after another. */
    method ResBytes() returns (out: seq<Byte>)
      requires Valid()
      ensures out == FlatRes(StampsOf(history, 0)) && |res| == |StampsOf(history, 0)|
    {
      hide Shape, Counted, EncodeRes, StampsOf, FlatRes, BlobTable.Table.Valid;
      ghost var stamps := StampsOf(history, 0);
      out := [];
      FlatResNone();
      for i := 0 to |res|
        invariant out == FlatRes(stamps[..i])
      {
        FlatResNext(stamps, i);
        out := out + res[i];
      }
      assert stamps[..|res|] == stamps;
    }

    /** The used bytes from the tail, wrapping at most once. */
    method RingBytes() returns (out: seq<Byte>)
      requires Valid()
      ensures out == Flat(Chunks())
    {
      hide Shape, Counted, Logged, Flat, BlobTable.Table.Valid, Around, Kept, RecordsOf, StampsOf;
      ghost var live, bytes := Flat(Chunks()), buf[..];
      AroundIsLive(Shaped());
      TailInside(Shaped());
      var cap := buf.Length;
      var pos, left := tail, used;
      ghost var done: nat := 0;
      out := [];
      while left > 0
        invariant 0 <= pos <= cap && 0 <= left && done + left == |live| && (left > 0 ==> pos < cap)
        invariant out == live[..done] && Around(bytes, pos, left) == live[done..]
      {
        var chunk := if cap - pos < left then cap - pos else left;
        AroundStep(bytes, pos, left, chunk);
        SplitAt(live, done, chunk);
        assert buf[pos..pos + chunk] == bytes[pos..pos + chunk];
        out := out + buf[pos..pos + chunk];
        done := done + chunk;
        left := left - chunk;
        pos := pos + chunk;
        if pos >= cap {
          pos := 0;
        }
      }
    }

    /** The dump: its header words, the resource log, then the ring from its oldest record. */
    method DumpBytes() returns (out: seq<Byte>)
      requires Valid()
      ensures out == DumpImage()
    {
      hide Valid, WordBytes, DumpWords, FlatRes, Flat, StampsOf;
      var words := DumpWords(buf.Length, used, number, evicted, realtime, |res|, resFull);
      var log := ResBytes();
      var ring := RingBytes();
      out := WordBytes(words) + log + ring;
    }

    /** A dump read back is exactly the surviving records and the whole resource log, and its
        stamps put the two in the order they came. The reader finds it whole exactly when the
        used bytes fit the 32-bit word that counts them. */
    lemma DumpReadsBack()
      requires Valid() && |Log()| < U64
      ensures var (log, recs) := (ResViews(StampsOf(history, 0)), Views(Log()[evicted..]));
              && ReadDump(DumpImage())
                 == (if used < U32
                     then Some(Dump(buf.Length / 0x10_0000 % U32, number, evicted, realtime % U64,
                                    resFull, log, recs))
                     else None)
              && Merge(evicted, recs, log) == ViewItems(Survivors(history, evicted))
    {
      hide Shape, Encode, EncodeRes, RecordsOf, StampsOf, BlobTable.Table.Valid,
        DumpWords, WordBytes, ReadDump, FlatRes, Flat, Merge, Survivors, Views, ResViews, Size, Kept;
      var chunks := Chunks();
      AroundIsLive(Shaped());
      DumpRoundTrip(StampsOf(history, 0), chunks, buf.Length, number, evicted, realtime, resFull);
      ParsedMergeRestoresArrival(history, evicted);
    }
  }
}
