/** The trace's byte format: record headers, the chunks a ring is made of, the resource log's
    events, the dump that carries both, and the reader that walks a dump by record length. */
module TraceFormat {
  import opened Bytes

  const MAGIC: Word := 0x4c4d_5654
  const VERSION: Word := 3
  const HEADER: nat := 32
  const RES_EVENT: nat := 56
  const DUMP_HEADER: nat := 64
  const PAD: Byte := 7

  /** What a caller can record. Padding is the ring's own and has no constructor here. */
  datatype Kind =
    | Submit | Command | DrawFb | Transfer | Fence | Retire
    | TransferData | BlobData | CtxCreate | CtxDestroy
  {
    function Code(): (c: Byte)
      ensures c != PAD
    {
      match this
      case Submit => 1
      case Command => 2
      case DrawFb => 3
      case Transfer => 4
      case Fence => 5
      case Retire => 6
      case TransferData => 9
      case BlobData => 10
      case CtxCreate => 11
      case CtxDestroy => 12
    }
  }

  /** The kind a reader takes a code for: seven is padding, and eight is a gap. */
  function KindOf(code: nat): Option<Kind> {
    match code
    case 1 => Some(Submit)
    case 2 => Some(Command)
    case 3 => Some(DrawFb)
    case 4 => Some(Transfer)
    case 5 => Some(Fence)
    case 6 => Some(Retire)
    case 9 => Some(TransferData)
    case 10 => Some(BlobData)
    case 11 => Some(CtxCreate)
    case 12 => Some(CtxDestroy)
    case _ => None
  }

  /** Every kind is written with the code it is known by, and padding with a code of no kind. */
  lemma KindsAreKnownByTheirCodes(k: Kind)
    ensures KindOf(k.Code()) == Some(k) && KindOf(7) == KindOf(8) == None && PAD == 7
  {
  }

  /** A record as it was accepted: `number` is the sequence it took. */
  datatype Record = Record(
    kind: Kind, cmd: Byte, ctx: Option<Word>, number: nat, mono: nat,
    aux: seq<Word>, payload: seq<Byte>)

  /** A record as a reader sees it; no kind for a code it does not know. */
  datatype Parsed = Parsed(
    kind: Option<Kind>, cmd: Byte, ctx: nat, number: nat, mono: nat, aux: seq<nat>, payload: seq<Byte>)

  /** No context is written as zero, and a context keeps only its low sixteen bits. */
  function CtxField(ctx: Option<Word>): nat {
    match ctx case None => 0 case Some(c) => c % U16
  }

  /** What a reader is owed of a record: all of it but the upper half of its context, and no more
      of its number and time than sixty-four bits hold. */
  function View(r: Record): Parsed {
    Parsed(Some(r.kind), r.cmd, if r.ctx.None? then 0 else r.ctx.value % 0x1_0000,
           r.number % U64, r.mono % U64, r.aux, r.payload)
  }

  function Header(total: nat, kind: Byte, cmd: Byte, ctx: nat, number: nat, mono: nat,
                  payload: nat, aux: nat): (h: seq<Byte>)
    ensures |h| == HEADER
  {
    Le(total, 4) + [kind, cmd] + Le(ctx, 2) + Le(number, 8) + Le(mono, 8)
    + Le(payload, 4) + Le(aux, 4)
  }

  /** Each header field sits where a reader looks for it. */
  lemma HeaderFields(s: seq<Byte>, total: nat, kind: Byte, cmd: Byte, ctx: nat, number: nat,
                     mono: nat, payload: nat, aux: nat)
    requires HEADER <= |s| && s[..HEADER] == Header(total, kind, cmd, ctx, number, mono, payload, aux)
    ensures FromLe(s[..4]) == total % U32 && s[4] == kind && s[5] == cmd && FromLe(s[6..8]) == ctx % U16
    ensures FromLe(s[8..16]) == number % U64 && FromLe(s[16..24]) == mono % U64
    ensures FromLe(s[24..28]) == payload % U32 && FromLe(s[28..32]) == aux % U32
  {
    hide Le, FromLe;
    var h := s[..HEADER];
    assert s[4] == h[4] && s[5] == h[5];
    assert s[..4] == h[..4] == Le(total, 4);
    assert s[6..8] == h[6..8] == Le(ctx, 2);
    assert s[8..16] == h[8..16] == Le(number, 8);
    assert s[16..24] == h[16..24] == Le(mono, 8);
    assert s[24..28] == h[24..28] == Le(payload, 4);
    assert s[28..32] == h[28..32] == Le(aux, 4);
    FieldRoundTrip(total);
    FieldRoundTrip(ctx);
    FieldRoundTrip(number);
    FieldRoundTrip(mono);
    FieldRoundTrip(payload);
    FieldRoundTrip(aux);
  }

  // ------------------------------------------------------------------ chunks

  /** What the ring's bytes are made of: records, each with the zeros after it up to its length,
      and pads, whose bytes past the header are whatever was there before. */
  datatype Chunk = Rec(r: Record, slack: nat) | Pad(junk: seq<Byte>)

  function RawSize(aux: nat, payload: nat): nat { HEADER + 4 * aux + payload }

  function Size(c: Chunk): (n: nat)
    ensures n >= HEADER
  {
    match c
    case Rec(r, slack) => RawSize(|r.aux|, |r.payload|) + slack
    case Pad(junk) => HEADER + |junk|
  }

  function Encode(c: Chunk): (s: seq<Byte>)
    ensures |s| == Size(c)
  {
    match c
    case Rec(r, slack) =>
      Header(Size(c), r.kind.Code(), r.cmd, CtxField(r.ctx), r.number, r.mono, |r.payload|, |r.aux|)
      + WordBytes(r.aux) + r.payload + Zeros(slack)
    case Pad(junk) => Header(Size(c), PAD, 0, 0, 0, 0, 0, 0) + junk
  }

  function Flat(cs: seq<Chunk>): seq<Byte> {
    if cs == [] then [] else Encode(cs[0]) + Flat(cs[1..])
  }

  lemma {:induction false} FlatAppend(a: seq<Chunk>, b: seq<Chunk>)
    ensures Flat(a + b) == Flat(a) + Flat(b)
  {
    if a == [] {
      assert a + b == b;
    } else {
      assert (a + b)[1..] == a[1..] + b;
      FlatAppend(a[1..], b);
    }
  }

  /** No chunk is longer than the run it is in. */
  lemma {:induction false} SizeBound(cs: seq<Chunk>, c: Chunk)
    requires c in cs
    ensures Size(c) <= |Flat(cs)|
  {
    if c != cs[0] {
      SizeBound(cs[1..], c);
    }
  }

  /** The records among the chunks, in order. */
  function Kept(cs: seq<Chunk>): (rs: seq<Record>)
    ensures |rs| <= |cs|
  {
    if cs == [] then []
    else (if cs[0].Rec? then [cs[0].r] else []) + Kept(cs[1..])
  }

  lemma {:induction false} KeptAppend(a: seq<Chunk>, b: seq<Chunk>)
    ensures Kept(a + b) == Kept(a) + Kept(b)
  {
    if a == [] {
      assert a + b == b;
    } else {
      assert (a + b)[0] == a[0] && (a + b)[1..] == a[1..] + b;
      KeptAppend(a[1..], b);
      Grouped(if a[0].Rec? then [a[0].r] else [], Kept(a[1..]), Kept(b));
    }
  }

  function Views(rs: seq<Record>): (ps: seq<Parsed>)
    ensures |ps| == |rs|
  {
    seq(|rs|, i requires 0 <= i < |rs| => View(rs[i]))
  }

  /** A chunk's length reads back from its header exactly when it fits the 32-bit field. */
  lemma LengthFieldIsExact(c: Chunk)
    ensures FromLe(Encode(c)[..4]) == Size(c) <==> Size(c) < U32
  {
    hide FromLe, Le, Size, Header, WordBytes;
    var s := Encode(c);
    match c {
      case Rec(r, _) =>
        var h := Header(Size(c), r.kind.Code(), r.cmd, CtxField(r.ctx), r.number, r.mono, |r.payload|, |r.aux|);
        assert s[..HEADER] == h;
        HeaderFields(s, Size(c), r.kind.Code(), r.cmd, CtxField(r.ctx), r.number, r.mono, |r.payload|, |r.aux|);
      case Pad(_) =>
        assert s[..HEADER] == Header(Size(c), PAD, 0, 0, 0, 0, 0, 0);
        HeaderFields(s, Size(c), PAD, 0, 0, 0, 0, 0, 0);
    }
  }

  // ------------------------------------------------------------------ the reader

  /** Walk a stream forward by each record's length, dropping pads. `None` is a stream the
      reader cannot walk to its end. */
  function Walk(s: seq<Byte>): Option<seq<Parsed>>
    decreases |s|
  {
    if s == [] then Some([])
    else if |s| < HEADER then None
    else
      var total := FromLe(s[..4]);
      var plen, auxn := FromLe(s[24..28]), FromLe(s[28..32]);
      if total < HEADER || total > |s| || RawSize(auxn, plen) > |s| then None
      else
        match Walk(s[total..])
        case None => None
        case Some(rest) =>
          var at := HEADER + 4 * auxn;
          var p := Parsed(KindOf(s[4]), s[5], FromLe(s[6..8]), FromLe(s[8..16]), FromLe(s[16..24]),
                          ReadWords(s[HEADER..at]), s[at..at + plen]);
          Some((if s[4] == 7 then [] else [p]) + rest)
  }

  /** What a reader finds at the front of a stream, however the bytes came to be there. */
  lemma WalkStep(s: seq<Byte>, total: nat, plen: nat, auxn: nat)
    requires HEADER <= total <= |s| && RawSize(auxn, plen) <= |s|
    requires FromLe(s[..4]) == total && FromLe(s[24..28]) == plen && FromLe(s[28..32]) == auxn
    ensures var at := HEADER + 4 * auxn;
            var p := Parsed(KindOf(s[4]), s[5], FromLe(s[6..8]), FromLe(s[8..16]), FromLe(s[16..24]),
                            ReadWords(s[HEADER..at]), s[at..at + plen]);
            Walk(s) == match Walk(s[total..])
                       case None => None
                       case Some(ps) => Some((if s[4] == 7 then [] else [p]) + ps)
  {
    hide Le, FromLe, ReadWords;
  }

  lemma PadAhead(junk: seq<Byte>, rest: seq<Byte>)
    requires HEADER + |junk| < U32
    ensures var s := Encode(Pad(junk)) + rest;
            && FromLe(s[..4]) == HEADER + |junk| && s[4] == PAD
            && FromLe(s[24..28]) == 0 && FromLe(s[28..32]) == 0
  {
    hide Le, FromLe, ReadWords, Header;
    var h := Header(HEADER + |junk|, PAD, 0, 0, 0, 0, 0, 0);
    Parts(h, junk, [], [], rest);
    assert Encode(Pad(junk)) + rest == h + (junk + rest);
    HeaderFields(h + (junk + rest), HEADER + |junk|, PAD, 0, 0, 0, 0, 0, 0);
  }

  lemma RecAhead(r: Record, slack: nat, rest: seq<Byte>)
    requires Size(Rec(r, slack)) < U32
    ensures var s := Encode(Rec(r, slack)) + rest;
            var at := HEADER + 4 * |r.aux|;
            && FromLe(s[..4]) == Size(Rec(r, slack))
            && FromLe(s[24..28]) == |r.payload| && FromLe(s[28..32]) == |r.aux|
            && Parsed(KindOf(s[4]), s[5], FromLe(s[6..8]), FromLe(s[8..16]), FromLe(s[16..24]),
                      ReadWords(s[HEADER..at]), s[at..at + |r.payload|]) == View(r)
  {
    hide Le, FromLe, ReadWords, WordBytes, Header, KindOf;
    KindsAreKnownByTheirCodes(r.kind);
    var n := Size(Rec(r, slack));
    var h := Header(n, r.kind.Code(), r.cmd, CtxField(r.ctx), r.number, r.mono,
                    |r.payload|, |r.aux|);
    var words := WordBytes(r.aux);
    Parts(h, words, r.payload, Zeros(slack), rest);
    HeaderFields(h + (words + r.payload + Zeros(slack) + rest), n, r.kind.Code(), r.cmd,
                 CtxField(r.ctx), r.number, r.mono, |r.payload|, |r.aux|);
    WordsRoundTrip(r.aux);
  }

  /** Reading one chunk off the front of a stream. */
  lemma WalkOne(c: Chunk, rest: seq<Byte>)
    requires Size(c) < U32
    ensures var s := Encode(c) + rest;
            Walk(s) == match Walk(rest)
                       case None => None
                       case Some(ps) => Some((if c.Rec? then [View(c.r)] else []) + ps)
  {
    hide Encode, FromLe, ReadWords, Walk;
    var s := Encode(c) + rest;
    assert s[Size(c)..] == rest;
    match c {
      case Rec(r, slack) =>
        RecAhead(r, slack, rest);
        WalkStep(s, Size(c), |r.payload|, |r.aux|);
      case Pad(junk) =>
        PadAhead(junk, rest);
        WalkStep(s, Size(c), 0, 0);
    }
  }

  lemma WalkEmpty()
    ensures Walk([]) == Some([])
  {
  }

  /** Walking any run of chunks recovers exactly its records, in order. */
  lemma {:induction false} WalkFlat(cs: seq<Chunk>)
    requires forall c :: c in cs ==> Size(c) < U32
    ensures Walk(Flat(cs)) == Some(Views(Kept(cs)))
  {
    hide Walk, Encode, View, Size;
    if cs == [] {
      WalkEmpty();
      assert Views(Kept(cs)) == [];
    } else {
      WalkFlat(cs[1..]);
      WalkOne(cs[0], Flat(cs[1..]));
      assert Views(Kept(cs)) ==
             (if cs[0].Rec? then [View(cs[0].r)] else []) + Views(Kept(cs[1..]));
    }
  }

  // ------------------------------------------------------------------ resource events

  datatype BlobMem = Guest | Host3d {
    function Code(): Word { if Guest? then 1 else 2 }
  }

  type Handle = n: Word | n != 0 witness 1

  datatype ResEvent =
    | Create(handle: Handle, target: Word, format: Word, bind: Word, width: Word, height: Word,
             depth: Word, arraySize: Word, lastLevel: Word, nrSamples: Word, flags: Word)
    | Blob(handle: Handle, size: Long, blobMem: BlobMem, blobFlags: Word, blobId: Long,
           ctx: Option<Handle>)
    | Unref(handle: Handle)

  function Lo(v: Long): Word { v % 0x1_0000_0000 }

  function Hi(v: Long): Word { v / 0x1_0000_0000 }

  /** The twelve words of an event. A blob reuses a create's slots: its size across width and
      height, its id across depth and array size, its context in flags. */
  function ResWords(e: ResEvent): (ws: seq<Word>)
    ensures |ws| == 12
  {
    match e
    case Create(h, t, f, b, w, ht, d, a, l, n, fl) => [0, h as Word, t, f, b, w, ht, d, a, l, n, fl]
    case Blob(h, size, mem, bf, id, ctx) =>
      [1, h as Word, 0, mem.Code(), bf, Lo(size), Hi(size), Lo(id), Hi(id), 0, 0,
       match ctx case None => 0 case Some(c) => c]
    case Unref(h) => [2, h as Word, 0, 0, 0, 0, 0, 0, 0, 0, 0, 0]
  }

  function EncodeRes(e: ResEvent, stamp: nat): (s: seq<Byte>)
    ensures |s| == RES_EVENT
  {
    Le(stamp, 8) + WordBytes(ResWords(e))
  }

  /** The event twelve words stand for, or `None` for words no event has: three kinds, two kinds of
      blob memory, and no handle zero. */
  function DecodeWords(ws: seq<nat>): Option<ResEvent>
    requires |ws| == 12
  {
    if (exists i :: 0 <= i < 12 && ws[i] >= U32) || ws[1] == 0 then None
    else if ws[0] == 0 then
      Some(Create(ws[1], ws[2], ws[3], ws[4], ws[5], ws[6], ws[7], ws[8], ws[9], ws[10], ws[11]))
    else if ws[0] == 1 then
      var (size, id) := (ws[5] + 0x1_0000_0000 * ws[6], ws[7] + 0x1_0000_0000 * ws[8]);
      var ctx := if ws[11] == 0 then None else Some(ws[11]);
      if ws[3] == 1 then Some(Blob(ws[1], size, Guest, ws[4], id, ctx))
      else if ws[3] == 2 then Some(Blob(ws[1], size, Host3d, ws[4], id, ctx))
      else None
    else if ws[0] == 2 then Some(Unref(ws[1]))
    else None
  }

  /** No two events share their words, though a blob reuses a create's slots; and each word is where
      the reader's structure has it. */
  lemma ResWordsRoundTrip(e: ResEvent)
    ensures DecodeWords(ResWords(e)) == Some(e)
    ensures var w := ResWords(e);
            && w[1] == e.handle
            && match e
               case Create(_, target, format, bind, width, height, depth, layers, levels, samples, flags) =>
                 && w[0] == 0 && w[2] == target && w[3] == format && w[4] == bind && w[5] == width
                 && w[6] == height && w[7] == depth && w[8] == layers && w[9] == levels
                 && w[10] == samples && w[11] == flags
               case Blob(_, size, mem, flags, id, ctx) =>
                 && w[0] == 1 && w[3] == (if mem == Guest then 1 else 2) && w[4] == flags
                 && w[5] == size % 0x1_0000_0000 && w[6] == size / 0x1_0000_0000
                 && w[7] == id % 0x1_0000_0000 && w[8] == id / 0x1_0000_0000
                 && (ctx.Some? ==> w[11] == ctx.value) && (ctx.None? ==> w[11] == 0)
               case Unref(_) => w[0] == 2
  {
    if e.Blob? {
      assert Lo(e.size) + U32 * Hi(e.size) == e.size;
      assert Lo(e.blobId) + U32 * Hi(e.blobId) == e.blobId;
    }
  }

  /** An event as it was logged: `stamp` is the sequence the next record takes. */
  datatype Stamped<+E> = Stamped(stamp: nat, event: E)

  /** What a reader is owed of an event: all of it. */
  function ResView(e: Stamped<ResEvent>): Stamped<Option<ResEvent>> {
    Stamped(e.stamp % U64, Some(e.event))
  }

  function ResViews(es: seq<Stamped<ResEvent>>): (ps: seq<Stamped<Option<ResEvent>>>)
    ensures |ps| == |es|
  {
    seq(|es|, i requires 0 <= i < |es| => ResView(es[i]))
  }

  function FlatRes(es: seq<Stamped<ResEvent>>): (s: seq<Byte>)
    ensures |s| == RES_EVENT * |es|
  {
    if es == [] then [] else EncodeRes(es[0].event, es[0].stamp) + FlatRes(es[1..])
  }

  lemma {:induction false} FlatResAppend(a: seq<Stamped<ResEvent>>, b: seq<Stamped<ResEvent>>)
    ensures FlatRes(a + b) == FlatRes(a) + FlatRes(b)
  {
    if a == [] {
      assert a + b == b;
    } else {
      assert (a + b)[1..] == a[1..] + b;
      FlatResAppend(a[1..], b);
    }
  }

  function ReadRes(s: seq<Byte>, n: nat): (ps: seq<Stamped<Option<ResEvent>>>)
    requires RES_EVENT * n <= |s|
    ensures |ps| == n
  {
    if n == 0 then []
    else [Stamped(FromLe(s[..8]), DecodeWords(ReadWords(s[8..56])))] + ReadRes(s[56..], n - 1)
  }

  /** Reading one event off the front of the log. */
  lemma ResAhead(e: Stamped<ResEvent>, rest: seq<Byte>)
    ensures var s := EncodeRes(e.event, e.stamp) + rest;
            s[RES_EVENT..] == rest
            && Stamped(FromLe(s[..8]), DecodeWords(ReadWords(s[8..56]))) == ResView(e)
  {
    hide Le, FromLe, ReadWords, WordBytes, ResWords, DecodeWords;
    ResWordsRoundTrip(e.event);
    var stamp, words := Le(e.stamp, 8), WordBytes(ResWords(e.event));
    Parts(stamp, words, [], [], rest);
    assert EncodeRes(e.event, e.stamp) + rest == stamp + words + [] + [] + rest;
    assert (stamp + words + [] + [] + rest)[..8] == stamp;
    FieldRoundTrip(e.stamp);
    WordsRoundTrip(ResWords(e.event));
  }

  lemma {:induction false} ResRoundTrip(es: seq<Stamped<ResEvent>>, rest: seq<Byte>)
    ensures ReadRes(FlatRes(es) + rest, |es|) == ResViews(es)
  {
    hide EncodeRes, ReadWords, ResWords, DecodeWords, FromLe;
    if es != [] {
      var first, others := EncodeRes(es[0].event, es[0].stamp), FlatRes(es[1..]);
      ResAhead(es[0], others + rest);
      assert FlatRes(es) + rest == first + (others + rest);
      ResRoundTrip(es[1..], rest);
      assert ResViews(es) == [ResView(es[0])] + ResViews(es[1..]);
    }
  }

  // ------------------------------------------------------------------ the dump

  /** The sixteen words a dump opens with. */
  function DumpWords(cap: nat, used: nat, number: nat, evicted: nat, realtime: nat, res: nat,
                     full: bool): (ws: seq<Word>)
    ensures |ws| == 16
  {
    [MAGIC, VERSION, cap / 0x10_0000 % U32, used % U32,
     number % U32, number / U32 % U32, evicted % U32, evicted / U32 % U32, 0, 0,
     realtime % U32, realtime / U32 % U32, res % U32, if full then 1 else 0, 0, 0]
  }

  datatype Dump = Dump(megabytes: nat, number: nat, evicted: nat, realtime: nat, full: bool,
                       res: seq<Stamped<Option<ResEvent>>>, recs: seq<Parsed>)

  /** Read a dump whole: its header words, its resource log, then its records by length. */
  function ReadDump(s: seq<Byte>): Option<Dump> {
    if |s| < 64 then None
    else
      var w := ReadWords(s[..64]);
      var end := 64 + 56 * w[12];
      if w[0] != 0x4c4d_5654 || w[1] != 3 || end + w[3] != |s| then None
      else
        match Walk(s[end..])
        case None => None
        case Some(recs) =>
          Some(Dump(w[2], w[4] + 0x1_0000_0000 * w[5], w[6] + 0x1_0000_0000 * w[7],
                    w[10] + 0x1_0000_0000 * w[11], w[13] != 0, ReadRes(s[64..], w[12]), recs))
  }

  /** The header words a reader goes by. */
  lemma DumpFields(cap: nat, used: nat, number: nat, evicted: nat, realtime: nat, res: nat,
                   full: bool)
    requires res < U32
    ensures var w := DumpWords(cap, used, number, evicted, realtime, res, full);
            && w[0] == MAGIC && w[1] == VERSION && w[3] == used % U32 && w[12] == res
            && w[2] == cap / 0x10_0000 % U32
            && w[4] + U32 * w[5] == number % U64 && w[6] + U32 * w[7] == evicted % U64
            && w[10] + U32 * w[11] == realtime % U64
            && (w[13] != 0) == full && w[8] == w[9] == w[14] == w[15] == 0
  {
    Halves(number);
    Halves(evicted);
    Halves(realtime);
    var w := DumpWords(cap, used, number, evicted, realtime, res, full);
    assert w[4] == number % U32 && w[5] == number / U32 % U32 && w[6] == evicted % U32;
    assert w[7] == evicted / U32 % U32 && w[10] == realtime % U32 && w[11] == realtime / U32 % U32;
  }

  lemma Halves(n: nat)
    ensures n % U32 + U32 * (n / U32 % U32) == n % U64
  {
  }

  /** What the reader makes of header words, a resource log and a body it can tell apart. */
  lemma ReadDumpOf(ws: seq<Word>, log: seq<Byte>, body: seq<Byte>)
    requires |ws| == 16 && ws[0] == MAGIC && ws[1] == VERSION && |log| == RES_EVENT * ws[12]
    ensures RES_EVENT * ws[12] <= |log + body|
    ensures ReadDump(WordBytes(ws) + log + body)
         == if ws[3] != |body| then None
            else match Walk(body)
                 case None => None
                 case Some(recs) => Some(Dump(ws[2], ws[4] + U32 * ws[5], ws[6] + U32 * ws[7], ws[10] + U32 * ws[11],
                                              ws[13] != 0, ReadRes(log + body, ws[12]), recs))
  {
    hide Walk, ReadRes, ReadWords, WordBytes;
    var head := WordBytes(ws);
    var s := head + log + body;
    Grouped(head, log, body);
    assert s[..DUMP_HEADER] == head && s[DUMP_HEADER..] == log + body;
    assert s[DUMP_HEADER + |log|..] == body;
    WordsRoundTrip(ws);
  }

  /** A dump of any resource log and any chunks reads back as that log and those records, exactly
      when the count of used bytes fits the 32-bit word it is written in; otherwise the reader
      finds the ring is not the rest of the dump. */
  lemma DumpRoundTrip(es: seq<Stamped<ResEvent>>, cs: seq<Chunk>, cap: nat, number: nat,
                      evicted: nat, realtime: nat, full: bool)
    requires |es| < U32
    ensures var ws := DumpWords(cap, |Flat(cs)|, number, evicted, realtime, |es|, full);
            ReadDump(WordBytes(ws) + FlatRes(es) + Flat(cs))
            == if |Flat(cs)| < U32
               then Some(Dump(cap / 0x10_0000 % U32, number % U64, evicted % U64, realtime % U64, full,
                               ResViews(es), Views(Kept(cs))))
               else None
  {
    hide Walk, ReadRes, ReadDump, FlatRes, Flat, ReadWords, WordBytes, DumpWords, Kept, Views, ResViews, Size;
    DumpFields(cap, |Flat(cs)|, number, evicted, realtime, |es|, full);
    ReadDumpOf(DumpWords(cap, |Flat(cs)|, number, evicted, realtime, |es|, full), FlatRes(es), Flat(cs));
    ResRoundTrip(es, Flat(cs));
    if |Flat(cs)| < U32 {
      forall c | c in cs ensures Size(c) < U32 {
        SizeBound(cs, c);
      }
      WalkFlat(cs);
    }
  }
}
