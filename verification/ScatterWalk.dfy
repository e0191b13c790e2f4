/** A scatter list of guest pages as one byte-addressed span, and the walk that resolves a range
    of it to pieces, resuming from a cursor. Host memory is one array; an entry is a range of it. */
module ScatterWalk {
  import opened Bytes

  datatype Entry = Entry(base: nat, len: nat)

  function Sum(es: seq<Entry>): nat {
    if es == [] then 0 else es[0].len + Sum(es[1..])
  }

  lemma {:induction false} SumAppend(a: seq<Entry>, b: seq<Entry>)
    ensures Sum(a + b) == Sum(a) + Sum(b)
  {
    if a == [] {
      assert a + b == b;
    } else {
      assert (a + b)[1..] == a[1..] + b;
      SumAppend(a[1..], b);
    }
  }

  /** The bytes before entry `i`. */
  function Before(es: seq<Entry>, i: nat): nat
    requires i <= |es|
  {
    Sum(es[..i])
  }

  lemma BeforeNext(es: seq<Entry>, i: nat)
    requires i < |es|
    ensures Before(es, i + 1) == Before(es, i) + es[i].len
  {
    assert es[..i + 1] == es[..i] + [es[i]];
    SumAppend(es[..i], [es[i]]);
  }

  lemma {:induction false} BeforeMonotone(es: seq<Entry>, i: nat, j: nat)
    requires i <= j <= |es|
    ensures Before(es, i) <= Before(es, j) <= Sum(es)
  {
    assert es == es[..j] + es[j..] && es[..j] == es[..i] + es[i..j];
    SumAppend(es[..j], es[j..]);
    SumAppend(es[..i], es[i..j]);
  }

  /** Entry `i` is the one that holds byte `at`, or `i` is past the end and `at` is too. Entries of
      no length hold nothing. */
  ghost predicate Holds(es: seq<Entry>, i: nat, at: nat) {
    && i <= |es| && Before(es, i) <= at
    && (i < |es| ==> at < Before(es, i) + es[i].len)
  }

  lemma HoldsUnique(es: seq<Entry>, i: nat, j: nat, at: nat)
    requires Holds(es, i, at) && Holds(es, j, at)
    ensures i == j
  {
    if i < j {
      BeforeNext(es, i);
      BeforeMonotone(es, i + 1, j);
    } else if j < i {
      BeforeNext(es, j);
      BeforeMonotone(es, j + 1, i);
    }
  }

  /** The entry a walk from the head stops at. */
  function EntryFor(es: seq<Entry>, at: nat): (i: nat)
    ensures i <= |es|
  {
    if es == [] || at < es[0].len then 0 else 1 + EntryFor(es[1..], at - es[0].len)
  }

  lemma {:induction false} EntryForHolds(es: seq<Entry>, at: nat)
    ensures Holds(es, EntryFor(es, at), at)
  {
    if es != [] && at >= es[0].len {
      EntryForHolds(es[1..], at - es[0].len);
      var i := EntryFor(es, at);
      assert es[..i][1..] == es[1..][..i - 1];
    }
  }

  // ------------------------------------------------------------------ pieces

  /** One contiguous piece of a range: `n` bytes, `skip` into its entry and `into` into the range. */
  datatype Piece = Piece(entry: nat, skip: nat, into: nat, n: nat)

  /** The pieces of a range from `skip` into entry `i` on, `done` of its `len` bytes gone. */
  function PiecesFrom(es: seq<Entry>, i: nat, skip: nat, done: nat, len: nat): seq<Piece>
    requires i <= |es| && (i < |es| ==> skip <= es[i].len) && done <= len
    decreases |es| - i
  {
    if i == |es| || done == len then []
    else
      var take := Min(es[i].len - skip, len - done);
      [Piece(i, skip, done, take)] + PiecesFrom(es, i + 1, 0, done + take, len)
  }

  /** The pieces of a range, as a walk from the head of the list finds them. */
  function Pieces(es: seq<Entry>, at: nat, len: nat): seq<Piece>
    requires at + len <= Sum(es)
  {
    EntryForHolds(es, at);
    var i := EntryFor(es, at);
    PiecesFrom(es, i, at - Before(es, i), 0, len)
  }

  ghost function Covered(ps: seq<Piece>): nat {
    if ps == [] then 0 else ps[0].n + Covered(ps[1..])
  }

  /** The pieces tile the range: each starts where the one before ended, lies inside its own entry,
      and is where its part of the range lives in the list. */
  ghost predicate Tiles(es: seq<Entry>, ps: seq<Piece>, at: nat, from: nat) {
    ps == [] ||
    (var p := ps[0];
     && p.entry < |es| && p.into == from && p.skip + p.n <= es[p.entry].len
     && Before(es, p.entry) + p.skip == at + from
     && Tiles(es, ps[1..], at, from + p.n))
  }

  lemma {:induction false} PiecesTile(es: seq<Entry>, i: nat, skip: nat, done: nat, len: nat, at: nat)
    requires i <= |es| && (i < |es| ==> skip <= es[i].len) && done <= len
    requires Before(es, i) + skip == at + done && at + len <= Sum(es)
    ensures var ps := PiecesFrom(es, i, skip, done, len);
            Tiles(es, ps, at, done) && Covered(ps) == len - done
    decreases |es| - i
  {
    if i == |es| {
      assert es[..i] == es;
    } else if done != len {
      var take := Min(es[i].len - skip, len - done);
      BeforeNext(es, i);
      var ps := PiecesFrom(es, i, skip, done, len);
      assert ps[1..] == PiecesFrom(es, i + 1, 0, done + take, len);
      if done + take < len {
        PiecesTile(es, i + 1, 0, done + take, len, at);
      } else {
        assert PiecesFrom(es, i + 1, 0, len, len) == [];
      }
    }
  }

  // ------------------------------------------------------------------ addresses

  /** Where byte `p` of the list lives in host memory. */
  function Addr(es: seq<Entry>, p: nat): nat
    requires p < Sum(es)
  {
    if p < es[0].len then es[0].base + p else Addr(es[1..], p - es[0].len)
  }

  lemma {:induction false} AddrIn(es: seq<Entry>, i: nat, k: nat)
    requires i < |es| && k < es[i].len
    ensures Before(es, i) + k < Sum(es) && Addr(es, Before(es, i) + k) == es[i].base + k
  {
    BeforeNext(es, i);
    BeforeMonotone(es, i + 1, |es|);
    if i > 0 {
      AddrIn(es[1..], i - 1, k);
      assert es[..i][1..] == es[1..][..i - 1];
    }
  }

  /** Every entry lies in memory of `size` bytes. */
  predicate InMemory(es: seq<Entry>, size: nat) {
    forall e :: e in es ==> e.base + e.len <= size
  }

  predicate Apart(es: seq<Entry>) {
    forall i, j :: 0 <= i < j < |es| ==>
      es[i].base + es[i].len <= es[j].base || es[j].base + es[j].len <= es[i].base
  }

  lemma {:induction false} AddrInside(es: seq<Entry>, p: nat) returns (i: nat)
    requires p < Sum(es)
    ensures i < |es| && es[i].base <= Addr(es, p) < es[i].base + es[i].len
  {
    if p < es[0].len {
      i := 0;
    } else {
      var j := AddrInside(es[1..], p - es[0].len);
      i := j + 1;
    }
  }

  /** In a list whose entries are apart, no two bytes share an address. */
  lemma {:induction false} AddrInjective(es: seq<Entry>, p: nat, q: nat)
    requires p < q < Sum(es) && Apart(es)
    ensures Addr(es, p) != Addr(es, q)
  {
    if p >= es[0].len {
      AddrInjective(es[1..], p - es[0].len, q - es[0].len);
    } else if q >= es[0].len {
      var j := AddrInside(es[1..], q - es[0].len);
      assert es[1..][j] == es[j + 1];
    }
  }

  /** The list's bytes as one span. */
  ghost function Span(mem: seq<Byte>, es: seq<Entry>): (s: seq<Byte>)
    requires InMemory(es, |mem|)
    ensures |s| == Sum(es)
  {
    if es == [] then []
    else mem[es[0].base..es[0].base + es[0].len] + Span(mem, es[1..])
  }

  lemma {:induction false} SpanAt(mem: seq<Byte>, es: seq<Entry>, p: nat)
    requires InMemory(es, |mem|) && p < Sum(es)
    ensures Addr(es, p) < |mem| && Span(mem, es)[p] == mem[Addr(es, p)]
  {
    assert es[0] in es;
    if p >= es[0].len {
      SpanAt(mem, es[1..], p - es[0].len);
    }
  }

  // ------------------------------------------------------------------ the walk

  /** A scatter list, its total summed once. Two lists are the same only if they are the same
      object. */
  class Iov {
    const entries: seq<Entry>
    const len: nat

    ghost predicate Valid() { len == Sum(entries) && len < U64 }

    constructor (entries: seq<Entry>)
      requires Sum(entries) < U64
      ensures this.entries == entries && Valid()
    {
      this.entries := entries;
      this.len := Sum(entries);
    }
  }

  class Cursor {
    var list: Iov?
    var entry: nat
    var base: nat

    ghost predicate Valid()
      reads this
    {
      if list == null then entry == 0 && base == 0
      else entry <= |list.entries| && base == Before(list.entries, entry)
    }

    constructor ()
      ensures Valid() && list == null
    {
      list, entry, base := null, 0, 0;
    }

    /** How many entries this cursor has already got a walk of `iov` from `at` past. */
    ghost function HeadStart(iov: Iov, at: nat): nat
      reads this
    {
      if list == iov && base <= at then entry else 0
    }

    /** Move to the entry that holds `at`, from where the last walk stopped if that was on this
        list and not past it, from the head otherwise. */
    method Seek(iov: Iov, at: nat) returns (ghost skipped: nat)
      requires Valid() && iov.Valid()
      modifies this
      ensures Valid() && list == iov && Holds(iov.entries, entry, at)
      ensures skipped + old(HeadStart(iov, at)) == entry
    {
      hide Sum;
      BeforeNone(iov.entries);
      skipped := 0;
      if at < base || list != iov {
        list, entry, base := null, 0, 0;
      }
      var es := iov.entries;
      var i, b := entry, base;
      while i < |es| && b + es[i].len <= at
        invariant i <= |es| && b == Before(es, i) && b <= at
        invariant skipped + old(HeadStart(iov, at)) == i
      {
        BeforeNext(es, i);
        b := b + es[i].len;
        i := i + 1;
        skipped := skipped + 1;
      }
      list, entry, base := iov, i, b;
    }

    /** Walk `len` bytes of `iov` from `at`: whether the range is inside the list, and its pieces
        in order, none if it is not. Wherever the cursor came from, the pieces are the same. */
    method WalkFrom(iov: Iov, at: nat, len: nat) returns (ok: bool, pieces: seq<Piece>, ghost skipped: nat)
      requires Valid() && iov.Valid()
      modifies this
      ensures Valid()
      ensures ok <==> at + len <= iov.len
      ensures !ok ==> pieces == [] && skipped == 0
                      && list == old(list) && entry == old(entry) && base == old(base)
      ensures ok ==>
                && list == iov && entry == EntryFor(iov.entries, at)
                && pieces == Pieces(iov.entries, at, len)
                && Tiles(iov.entries, pieces, at, 0) && Covered(pieces) == len
                && skipped + old(HeadStart(iov, at)) == entry
    {
      hide Sum, Tiles, Covered, Before, PiecesFrom;
      pieces, skipped := [], 0;
      if at + len >= U64 {
        return false, pieces, skipped;
      }
      if at + len > iov.len {
        return false, pieces, skipped;
      }
      skipped := Seek(iov, at);
      EntryForHolds(iov.entries, at);
      HoldsUnique(iov.entries, entry, EntryFor(iov.entries, at), at);
      PiecesTile(iov.entries, entry, at - base, 0, len, at);
      ok, pieces := Cut(iov.entries, entry, at - base, len, at);
    }
  }

  /** Cut `len` bytes from `from` bytes into entry `first` on into pieces, entry by entry. */
  method Cut(es: seq<Entry>, first: nat, from: nat, len: nat, ghost at: nat)
    returns (ok: bool, pieces: seq<Piece>)
    requires first <= |es| && (first < |es| ==> from <= es[first].len)
    requires Before(es, first) + from == at && at + len <= Sum(es)
    ensures ok && pieces == PiecesFrom(es, first, from, 0, len)
  {
    hide Sum, Before;
    BeforeAll(es);
    var i, skip, done := first, from, 0;
    pieces := [];
    while i < |es| && done != len
      invariant i <= |es| && 0 <= done <= len && 0 <= skip
      invariant i < |es| ==> skip <= es[i].len
      invariant done == len || Before(es, i) + skip == at + done
      invariant PiecesFrom(es, first, from, 0, len) == pieces + PiecesFrom(es, i, skip, done, len)
      decreases |es| - i
    {
      BeforeNext(es, i);
      var take := Min(es[i].len - skip, len - done);
      pieces := pieces + [Piece(i, skip, done, take)];
      done := done + take;
      skip := 0;
      i := i + 1;
    }
    ok := done == len;
  }

  lemma BeforeNone(es: seq<Entry>)
    ensures Before(es, 0) == 0
  {
  }

  lemma BeforeAll(es: seq<Entry>)
    ensures Before(es, |es|) == Sum(es)
  {
    assert es[..|es|] == es;
  }

  // ------------------------------------------------------------------ the copies

  /** A piece's bytes in memory are its part of the list's span. */
  lemma PieceIsSpan(mem: seq<Byte>, es: seq<Entry>, ps: seq<Piece>, at: nat, from: nat)
    requires InMemory(es, |mem|) && Tiles(es, ps, at, from) && ps != []
    ensures var (p, a, lo) := (ps[0], es[ps[0].entry].base + ps[0].skip, at + from);
            && a + p.n <= |mem| && lo + p.n <= Sum(es)
            && (forall q :: lo <= q < lo + p.n ==> Addr(es, q) == a + (q - lo))
            && (forall q :: lo <= q < lo + p.n ==> Span(mem, es)[q] == mem[a + (q - lo)])
  {
    hide Sum, Span, Addr, Before;
    var (p, a, lo) := (ps[0], es[ps[0].entry].base + ps[0].skip, at + from);
    BeforeNext(es, p.entry);
    BeforeMonotone(es, p.entry + 1, |es|);
    assert es[p.entry] in es;
    forall q | lo <= q < lo + p.n ensures Addr(es, q) == a + (q - lo) && Span(mem, es)[q] == mem[a + (q - lo)] {
      AddrIn(es, p.entry, p.skip + (q - lo));
      SpanAt(mem, es, q);
    }
  }

  lemma TilesNext(es: seq<Entry>, ps: seq<Piece>, i: nat, at: nat, from: nat)
    requires i < |ps| && Tiles(es, ps[i..], at, from)
    ensures ps[i].entry < |es| && ps[i].into == from
    ensures Tiles(es, ps[i + 1..], at, from + ps[i].n)
    ensures Covered(ps[i..]) == ps[i].n + Covered(ps[i + 1..])
  {
    assert ps[i..][1..] == ps[i + 1..];
  }

  lemma TilesEnds()
    ensures forall ps: seq<Piece> :: ps[0..] == ps && Covered(ps[|ps|..]) == 0
  {
  }

  /** Copy a range of the pages out. A range not wholly inside them is refused, and `dst` left as
      it was; one inside them arrives as the same slice of the list's span. */
  method CopyOutFrom(mem: array<Byte>, iov: Iov, cursor: Cursor, at: nat, dst: array<Byte>) returns (ok: bool)
    requires iov.Valid() && cursor.Valid() && InMemory(iov.entries, mem.Length) && mem != dst
    modifies cursor, dst
    ensures cursor.Valid()
    ensures ok <==> at + dst.Length <= iov.len
    ensures !ok ==> dst[..] == old(dst[..])
    ensures ok ==> dst[..] == Span(mem[..], iov.entries)[at..at + dst.Length]
  {
    hide Sum, Tiles, Span, Covered, Pieces, InMemory;
    var pieces;
    ghost var skipped;
    ok, pieces, skipped := cursor.WalkFrom(iov, at, dst.Length);
    if !ok {
      return;
    }
    ghost var es, done := iov.entries, 0;
    ghost var span := Span(mem[..], es);
    TilesEnds();
    for i := 0 to |pieces|
      invariant 0 <= done <= dst.Length && done + Covered(pieces[i..]) == dst.Length
      invariant Tiles(es, pieces[i..], at, done)
      invariant cursor.Valid() && forall j :: 0 <= j < done ==> dst[j] == span[at + j]
    {
      TilesNext(es, pieces, i, at, done);
      PieceIsSpan(mem[..], es, pieces[i..], at, done);
      var p := pieces[i];
      var a := iov.entries[p.entry].base + p.skip;
      forall j | 0 <= j < p.n {
        dst[p.into + j] := mem[a + j];
      }
      forall j | done <= j < done + p.n ensures dst[j] == span[at + j] {
        assert span[at + j] == mem[..][a + (at + j - (at + done))];
      }
      done := done + p.n;
    }
  }

  /** Memory with `src` written over the list from `at`, later bytes over earlier ones where
      entries share memory: every address of the range holds what the last of its bytes says, and
      no other address changes. */
  ghost predicate Written(before: seq<Byte>, after: seq<Byte>, es: seq<Entry>, at: nat, src: seq<Byte>)
    requires at + |src| <= Sum(es) && InMemory(es, |before|)
  {
    && |after| == |before|
    && (forall p :: at <= p < at + |src| && LastAt(es, p, at + |src|) ==>
          Addr(es, p) < |after| && after[Addr(es, p)] == src[p - at])
    && (forall x :: 0 <= x < |before| && Untouched(es, at, at + |src|, x) ==> after[x] == before[x])
  }

  /** No byte between `p` and `hi` lives where byte `p` does. */
  ghost predicate LastAt(es: seq<Entry>, p: nat, hi: nat)
    requires p < hi <= Sum(es)
  {
    forall q :: p < q < hi ==> Addr(es, q) != Addr(es, p)
  }

  ghost predicate Untouched(es: seq<Entry>, lo: nat, hi: nat, x: nat)
    requires hi <= Sum(es)
  {
    forall p :: lo <= p < hi ==> Addr(es, p) != x
  }

  /** Every address of a piece is one of its bytes'. */
  lemma PieceHas(es: seq<Entry>, lo: nat, n: nat, a: nat, x: nat)
    requires lo + n <= Sum(es) && forall q :: lo <= q < lo + n ==> Addr(es, q) == a + (q - lo)
    ensures a <= x < a + n ==> exists q :: lo <= q < lo + n && Addr(es, q) == x
  {
    hide Addr, Sum;
    if a <= x < a + n {
      assert Addr(es, lo + (x - a)) == x;
    }
  }

  /** One more piece written. */
  lemma WrittenNext(before: seq<Byte>, mid: seq<Byte>, after: seq<Byte>, es: seq<Entry>, at: nat,
                    src: seq<Byte>, a: nat, next: seq<Byte>)
    requires at + |src| + |next| <= Sum(es) && InMemory(es, |before|)
    requires Written(before, mid, es, at, src)
    requires |after| == |mid| && a + |next| <= |mid|
    requires forall x :: 0 <= x < |mid| ==>
               after[x] == if a <= x < a + |next| then next[x - a] else mid[x]
    requires var lo := at + |src|;
             forall q :: lo <= q < lo + |next| ==> Addr(es, q) == a + (q - lo)
    ensures Written(before, after, es, at, src + next)
  {
    hide Addr, Sum, InMemory;
    var (all, lo) := (src + next, at + |src|);
    var hi := lo + |next|;
    forall p | at <= p < hi && LastAt(es, p, hi)
      ensures Addr(es, p) < |after| && after[Addr(es, p)] == all[p - at]
    {
      var x := Addr(es, p);
      if p < lo {
        assert LastAt(es, p, lo);
        PieceHas(es, lo, |next|, a, x);
      }
    }
    forall x | 0 <= x < |before| && Untouched(es, at, hi, x) ensures after[x] == before[x] {
      assert Untouched(es, at, lo, x);
      PieceHas(es, lo, |next|, a, x);
    }
  }

  /** Where entries are apart, memory so written reads back as a flat update of the span. */
  lemma WrittenSpan(before: seq<Byte>, after: seq<Byte>, es: seq<Entry>, at: nat, src: seq<Byte>)
    requires at + |src| <= Sum(es) && InMemory(es, |before|) && Apart(es)
    requires Written(before, after, es, at, src)
    ensures Span(after, es) == Span(before, es)[..at] + src + Span(before, es)[at + |src|..]
  {
    hide Span, Addr, Sum, Apart, InMemory;
    var (was, now) := (Span(before, es), Span(after, es));
    forall p | 0 <= p < Sum(es)
      ensures now[p] == if at <= p < at + |src| then src[p - at] else was[p]
    {
      SpanAt(before, es, p);
      SpanAt(after, es, p);
      forall q | 0 <= q < Sum(es) && q != p ensures Addr(es, q) != Addr(es, p) {
        AddrInjective(es, if p < q then p else q, if p < q then q else p);
      }
      if at <= p < at + |src| {
        assert LastAt(es, p, at + |src|);
      } else {
        assert Untouched(es, at, at + |src|, Addr(es, p));
      }
    }
    FlatUpdate(was, now, at, src);
  }

  lemma FlatUpdate(was: seq<Byte>, now: seq<Byte>, at: nat, src: seq<Byte>)
    requires |now| == |was| && at + |src| <= |was|
    requires forall p :: 0 <= p < |was| ==> now[p] == if at <= p < at + |src| then src[p - at] else was[p]
    ensures now == was[..at] + src + was[at + |src|..]
  {
  }

  /** Copy `src` into the pages at `at`. A range not wholly inside them is refused and nothing
      written; one inside them is written where it lives and nowhere else. Where the entries are
      apart in memory that is a flat update of the list's span. */
  method CopyInFrom(mem: array<Byte>, iov: Iov, cursor: Cursor, at: nat, src: seq<Byte>) returns (ok: bool)
    requires iov.Valid() && cursor.Valid() && InMemory(iov.entries, mem.Length)
    modifies cursor, mem
    ensures cursor.Valid()
    ensures ok <==> at + |src| <= iov.len
    ensures !ok ==> mem[..] == old(mem[..])
    ensures ok ==> Written(old(mem[..]), mem[..], iov.entries, at, src)
    ensures ok && Apart(iov.entries) ==>
              var was := old(Span(mem[..], iov.entries));
              Span(mem[..], iov.entries) == was[..at] + src + was[at + |src|..]
  {
    hide Sum, Tiles, Span, Covered, Pieces, Written, Addr, Apart, InMemory;
    var pieces;
    ghost var skipped;
    ok, pieces, skipped := cursor.WalkFrom(iov, at, |src|);
    if !ok {
      return;
    }
    ghost var before := mem[..];
    WritePieces(mem, iov.entries, pieces, at, src);
    if Apart(iov.entries) {
      WrittenSpan(before, mem[..], iov.entries, at, src);
    }
  }

  /** Write each piece's part of `src` where the piece is. */
  method WritePieces(mem: array<Byte>, es: seq<Entry>, pieces: seq<Piece>, ghost at: nat, src: seq<Byte>)
    requires InMemory(es, mem.Length) && at + |src| <= Sum(es)
    requires Tiles(es, pieces, at, 0) && Covered(pieces) == |src|
    modifies mem
    ensures Written(old(mem[..]), mem[..], es, at, src)
  {
    hide Sum, Tiles, Span, Covered, Written, Addr, InMemory;
    ghost var before := mem[..];
    var done: nat := 0;
    TilesEnds();
    NothingWritten(before, es, at);
    for i := 0 to |pieces|
      invariant 0 <= done <= |src| && done + Covered(pieces[i..]) == |src|
      invariant Tiles(es, pieces[i..], at, done)
      invariant Written(before, mem[..], es, at, src[..done])
    {
      TilesNext(es, pieces, i, at, done);
      ghost var mid := mem[..];
      PieceIsSpan(mid, es, pieces[i..], at, done);
      var p := pieces[i];
      var a := es[p.entry].base + p.skip;
      forall j | 0 <= j < p.n {
        mem[a + j] := src[p.into + j];
      }
      WrittenNext(before, mid, mem[..], es, at, src[..done], a, src[done..done + p.n]);
      assert src[..done + p.n] == src[..done] + src[done..done + p.n];
      done := done + p.n;
    }
    assert src[..|src|] == src;
  }

  lemma NothingWritten(mem: seq<Byte>, es: seq<Entry>, at: nat)
    requires at <= Sum(es) && InMemory(es, |mem|)
    ensures Written(mem, mem, es, at, [])
  {
  }

  // ------------------------------------------------------------------ a run of rows

  /** Walk one row at each of `ats`, in order. From any cursor, ascending rows -- refused ones
      among them -- cross the list once between them: the entries skipped over the whole run are
      no more than the list has. */
  method WalkRows(iov: Iov, cursor: Cursor, ats: seq<nat>, len: nat) returns (ok: seq<bool>, ghost skipped: nat)
    requires iov.Valid() && cursor.Valid()
    requires forall i, j :: 0 <= i < j < |ats| ==> ats[i] <= ats[j]
    modifies cursor
    ensures |ok| == |ats| && forall i :: 0 <= i < |ats| ==> (ok[i] <==> ats[i] + len <= iov.len)
    ensures skipped <= |iov.entries|
  {
    hide Sum, Tiles, Covered, Pieces, EntryFor;
    ok, skipped := [], 0;
    for i := 0 to |ats|
      invariant cursor.Valid() && |ok| == i
      invariant forall j :: 0 <= j < i ==> (ok[j] <==> ats[j] + len <= iov.len)
      invariant skipped == 0 || (cursor.list == iov && skipped <= cursor.entry)
      invariant if i == 0 then skipped == 0
                else skipped > 0 ==> cursor.base <= ats[i - 1]
    {
      var inside;
      var pieces;
      ghost var more;
      inside, pieces, more := cursor.WalkFrom(iov, ats[i], len);
      ok := ok + [inside];
      skipped := skipped + more;
      EntryForHolds(iov.entries, ats[i]);
    }
  }
}
