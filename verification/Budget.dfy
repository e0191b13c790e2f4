/** The memory ledger: what each context is charged, what outlived its context, what never had
    one, and the cap on all of it. Crediting a charge is dropping it. */
module Budget {
  import B = Bytes
  import opened Sums

  /** One occupant of a context id. Ids are reused; keys are not. */
  datatype Key = Key(id: nat, generation: nat)

  datatype Bucket = Bucket(what: string, size: nat)

  datatype Payer = Ctx(key: Key) | Classic

  datatype Charge = Charge(payer: Payer, bucket: Bucket)

  // ------------------------------------------------------------------ what is outstanding

  /** The world the ledger must agree with, kept from what is open and what is held, never read
      back from the ledger. */
  datatype World = World(live: set<Key>, used: set<Key>, held: seq<Charge>)

  datatype Home = SlotOf(key: Key) | Shared | OfClassic

  /** Where a charge belongs: with its occupant while that stands, then with nobody. */
  function HomeOf(c: Charge, live: set<Key>): Home {
    match c.payer
    case Classic => OfClassic
    case Ctx(k) => if k in live then SlotOf(k) else Shared
  }

  function CountAt(held: seq<Charge>, live: set<Key>, home: Home, b: Bucket): nat {
    if held == [] then 0
    else (if HomeOf(held[0], live) == home && held[0].bucket == b then 1 else 0)
         + CountAt(held[1..], live, home, b)
  }

  function BytesAt(held: seq<Charge>, live: set<Key>, home: Home): nat {
    if held == [] then 0
    else (if HomeOf(held[0], live) == home then held[0].bucket.size else 0)
         + BytesAt(held[1..], live, home)
  }

  function AllBytes(held: seq<Charge>): nat {
    if held == [] then 0 else held[0].bucket.size + AllBytes(held[1..])
  }

  lemma {:induction false} HeldAppend(a: seq<Charge>, b: seq<Charge>, live: set<Key>, home: Home)
    ensures forall k :: CountAt(a + b, live, home, k) == CountAt(a, live, home, k) + CountAt(b, live, home, k)
    ensures BytesAt(a + b, live, home) == BytesAt(a, live, home) + BytesAt(b, live, home)
    ensures AllBytes(a + b) == AllBytes(a) + AllBytes(b)
  {
    if a == [] {
      assert a + b == b;
    } else {
      assert (a + b)[1..] == a[1..] + b;
      HeldAppend(a[1..], b, live, home);
    }
  }

  lemma HeldOne(c: Charge, live: set<Key>, home: Home)
    ensures forall b :: CountAt([c], live, home, b) == if HomeOf(c, live) == home && c.bucket == b then 1 else 0
    ensures BytesAt([c], live, home) == if HomeOf(c, live) == home then c.bucket.size else 0
    ensures AllBytes([c]) == c.bucket.size
  {
    assert [c][1..] == [];
  }

  function Without(held: seq<Charge>, i: nat): seq<Charge>
    requires i < |held|
  {
    held[..i] + held[i + 1..]
  }

  /** Letting one charge go takes it from its own home and from no other. */
  lemma HeldWithout(held: seq<Charge>, i: nat, live: set<Key>, home: Home)
    requires i < |held|
    ensures var c := held[i];
            && (forall b :: CountAt(held, live, home, b) == CountAt(Without(held, i), live, home, b)
                              + if HomeOf(c, live) == home && c.bucket == b then 1 else 0)
            && BytesAt(held, live, home) == BytesAt(Without(held, i), live, home)
                 + (if HomeOf(c, live) == home then c.bucket.size else 0)
            && AllBytes(held) == AllBytes(Without(held, i)) + c.bucket.size
  {
    assert held == held[..i] + ([held[i]] + held[i + 1..]);
    HeldAppend(held[..i], [held[i]] + held[i + 1..], live, home);
    HeldAppend(held[..i], held[i + 1..], live, home);
    assert ([held[i]] + held[i + 1..])[1..] == held[i + 1..];
  }

  ghost predicate PayersUsed(w: World) {
    && w.live <= w.used
    && (forall c :: c in w.held && c.payer.Ctx? ==> c.payer.key in w.used)
    && (forall j, k :: j in w.live && k in w.live && j.id == k.id ==> j == k)
  }

  /** Opening a fresh key changes no charge's home. */
  lemma {:induction false} HeldOpen(held: seq<Charge>, live: set<Key>, k: Key, home: Home)
    requires forall c :: c in held ==> c.payer != Ctx(k)
    ensures forall b :: CountAt(held, live + {k}, home, b) == CountAt(held, live, home, b)
    ensures BytesAt(held, live + {k}, home) == BytesAt(held, live, home)
    ensures home == SlotOf(k) ==> BytesAt(held, live, home) == 0
                                  && forall b :: CountAt(held, live, home, b) == 0
  {
    if held != [] {
      HeldOpen(held[1..], live, k, home);
    }
  }

  /** Retiring a key moves its charges to the shared bucket and leaves every other where it was. */
  lemma {:induction false} HeldRetire(held: seq<Charge>, live: set<Key>, k: Key, home: Home)
    requires k in live
    ensures forall b :: CountAt(held, live - {k}, home, b)
                     == (if home == SlotOf(k) then 0 else CountAt(held, live, home, b))
                        + (if home == Shared then CountAt(held, live, SlotOf(k), b) else 0)
    ensures BytesAt(held, live - {k}, home)
         == (if home == SlotOf(k) then 0 else BytesAt(held, live, home))
            + (if home == Shared then BytesAt(held, live, SlotOf(k)) else 0)
  {
    if held != [] {
      HeldRetire(held[1..], live, k, home);
    }
  }

  // ------------------------------------------------------------------ histograms

  /** How many charges of each purpose and size are outstanding; a bucket is there only while it
      holds one. */
  type Histogram = map<Bucket, nat>

  function Count(h: Histogram, b: Bucket): nat { if b in h then h[b] else 0 }

  ghost function Weights(h: Histogram): map<Bucket, nat> {
    map b | b in h :: b.size * h[b]
  }

  ghost function BytesIn(h: Histogram): nat { Total(Weights(h)) }

  predicate NoZeros(h: Histogram) { forall b :: b in h ==> h[b] > 0 }

  /** `h` with `b` counted `n` times. */
  function Set(h: Histogram, b: Bucket, n: nat): Histogram {
    if n == 0 then h - {b} else h[b := n]
  }

  lemma SetBytes(h: Histogram, b: Bucket, n: nat)
    ensures BytesIn(Set(h, b, n)) + b.size * Count(h, b) == BytesIn(h) + b.size * n
  {
    var w := Weights(h);
    TotalUpdate(w, b, b.size * n);
    assert Weights(h - {b}) == w - {b};
    if b in h {
      TotalRemove(w, b);
    } else {
      assert w - {b} == w;
    }
    if n > 0 {
      assert Weights(h[b := n]) == w[b := b.size * n];
    }
  }

  method BytesOf(h: Histogram) returns (n: nat)
    ensures n == BytesIn(h)
  {
    var left := h;
    n := 0;
    while left != map[]
      invariant n + BytesIn(left) == BytesIn(h)
      decreases |left|
    {
      var b :| b in left;
      SetBytes(left, b, 0);
      n := n + b.size * left[b];
      left := left - {b};
    }
  }

  lemma MoveBytes(from: Histogram, to: Histogram, b: Bucket)
    requires b in from
    ensures BytesIn(from - {b}) + BytesIn(Set(to, b, Count(to, b) + from[b])) == BytesIn(from) + BytesIn(to)
  {
    hide BytesIn;
    var n := from[b];
    SetBytes(from, b, 0);
    SetBytes(to, b, Count(to, b) + n);
    assert b.size * (Count(to, b) + n) == b.size * Count(to, b) + b.size * n;
  }

  /** Move everything in `from` into `to`. */
  method DrainInto(from: Histogram, to: Histogram) returns (r: Histogram)
    requires NoZeros(from) && NoZeros(to)
    ensures NoZeros(r) && forall b :: Count(r, b) == Count(from, b) + Count(to, b)
    ensures BytesIn(r) == BytesIn(from) + BytesIn(to)
  {
    hide BytesIn;
    BytesInNone();
    var left := from;
    r := to;
    while left != map[]
      invariant NoZeros(left) && NoZeros(r)
      invariant forall b :: Count(r, b) + Count(left, b) == Count(from, b) + Count(to, b)
      invariant BytesIn(r) + BytesIn(left) == BytesIn(from) + BytesIn(to)
      decreases |left|
    {
      var b :| b in left;
      MoveBytes(left, r, b);
      r := r[b := Count(r, b) + left[b]];
      left := left - {b};
    }
  }

  lemma BytesInNone()
    ensures BytesIn(map[]) == 0
  {
    assert Weights(map[]) == map[];
  }

  // ------------------------------------------------------------------ the ledger against the world

  datatype Slot = Slot(key: Key, live: Histogram)

  /** A histogram holds exactly what the world says is charged at its home. */
  ghost predicate Matches(h: Histogram, held: seq<Charge>, live: set<Key>, home: Home) {
    && NoZeros(h)
    && (forall b :: Count(h, b) == CountAt(held, live, home, b))
    && BytesIn(h) == BytesAt(held, live, home)
  }

  ghost function SlotWeights(ctxs: map<nat, Slot>): map<nat, nat> {
    map id | id in ctxs :: BytesIn(ctxs[id].live)
  }

  ghost function SlotBytes(ctxs: map<nat, Slot>): nat { Total(SlotWeights(ctxs)) }

  lemma SlotBytesUpdate(ctxs: map<nat, Slot>, id: nat, s: Slot)
    ensures SlotBytes(ctxs[id := s]) == BytesIn(s.live) + SlotBytes(ctxs - {id})
    ensures id in ctxs ==> SlotBytes(ctxs) == BytesIn(ctxs[id].live) + SlotBytes(ctxs - {id})
  {
    hide BytesIn, Total;
    var w := SlotWeights(ctxs);
    TotalUpdate(w, id, BytesIn(s.live));
    assert SlotWeights(ctxs[id := s]) == w[id := BytesIn(s.live)];
    assert SlotWeights(ctxs - {id}) == w - {id};
  }

  /** Every slot is its current occupant's, and holds what that occupant has outstanding; what
      outlived its occupant is shared; what never had one is classic's; and the three are all
      there is. */
  ghost predicate Agrees(ctxs: map<nat, Slot>, shared: Histogram, classic: Histogram, w: World) {
    && PayersUsed(w)
    && (forall k :: k in w.live ==> k.id in ctxs && ctxs[k.id].key == k)
    && (forall id :: id in ctxs ==> ctxs[id].key.id == id && ctxs[id].key in w.live)
    && (forall id :: id in ctxs ==> Matches(ctxs[id].live, w.held, w.live, SlotOf(ctxs[id].key)))
    && Matches(shared, w.held, w.live, Shared)
    && Matches(classic, w.held, w.live, OfClassic)
    && SlotBytes(ctxs) + BytesIn(shared) + BytesIn(classic) == AllBytes(w.held)
  }

  /** A histogram with one more or one fewer in a bucket, against one more or fewer charge. */
  lemma MatchesTake(h: Histogram, held: seq<Charge>, live: set<Key>, home: Home, c: Charge)
    requires Matches(h, held, live, home)
    ensures if HomeOf(c, live) == home
            then Matches(h[c.bucket := Count(h, c.bucket) + 1], held + [c], live, home)
                 && BytesIn(h[c.bucket := Count(h, c.bucket) + 1]) == BytesIn(h) + c.bucket.size
            else Matches(h, held + [c], live, home)
  {
    hide BytesIn, CountAt, BytesAt;
    var (b, n) := (c.bucket, Count(h, c.bucket));
    HeldAppend(held, [c], live, home);
    HeldOne(c, live, home);
    SetBytes(h, b, n + 1);
    assert b.size * (n + 1) == b.size * n + b.size;
  }

  lemma MatchesCredit(h: Histogram, held: seq<Charge>, live: set<Key>, home: Home, i: nat)
    requires Matches(h, held, live, home) && i < |held|
    ensures var c := held[i];
            if HomeOf(c, live) == home
            then c.bucket in h && h[c.bucket] > 0
                 && Matches(Set(h, c.bucket, h[c.bucket] - 1), Without(held, i), live, home)
                 && BytesIn(h) == BytesIn(Set(h, c.bucket, h[c.bucket] - 1)) + c.bucket.size
            else Matches(h, Without(held, i), live, home)
  {
    hide BytesIn, Without, CountAt, BytesAt;
    var b := held[i].bucket;
    HeldWithout(held, i, live, home);
    if HomeOf(held[i], live) == home {
      assert Count(h, b) > 0;
      SetBytes(h, b, h[b] - 1);
      assert b.size * h[b] == b.size * (h[b] - 1) + b.size;
    }
  }

  // ------------------------------------------------------------------ each operation keeps it

  lemma MatchesOpen(h: Histogram, held: seq<Charge>, live: set<Key>, k: Key, home: Home)
    requires forall c :: c in held ==> c.payer != Ctx(k)
    requires Matches(h, held, live, home) || (home == SlotOf(k) && h == map[])
    ensures Matches(h, held, live + {k}, home)
  {
    hide BytesIn, CountAt, BytesAt;
    HeldOpen(held, live, k, home);
    BytesInNone();
  }

  lemma OpenAgrees(ctxs: map<nat, Slot>, shared: Histogram, classic: Histogram, w: World, k: Key)
    requires Agrees(ctxs, shared, classic, w) && k !in w.used
    requires forall j :: j in w.live ==> j.id != k.id
    ensures k.id !in ctxs
    ensures Agrees(ctxs[k.id := Slot(k, map[])], shared, classic, World(w.live + {k}, w.used + {k}, w.held))
  {
    hide BytesIn, CountAt, BytesAt, AllBytes, SlotBytes, Matches;
    forall h, home | Matches(h, w.held, w.live, home)
      ensures Matches(h, w.held, w.live + {k}, home)
    {
      MatchesOpen(h, w.held, w.live, k, home);
    }
    MatchesOpen(map[], w.held, w.live, k, SlotOf(k));
    SlotBytesUpdate(ctxs, k.id, Slot(k, map[]));
    BytesInNone();
    assert ctxs - {k.id} == ctxs;
  }

  lemma TakeAgrees(ctxs: map<nat, Slot>, shared: Histogram, classic: Histogram, w: World, c: Charge)
    requires Agrees(ctxs, shared, classic, w) && (c.payer.Ctx? ==> c.payer.key in w.live)
    ensures var after := w.(held := w.held + [c]);
            match c.payer
            case Ctx(k) =>
              var s := ctxs[k.id];
              Agrees(ctxs[k.id := s.(live := s.live[c.bucket := Count(s.live, c.bucket) + 1])],
                     shared, classic, after)
            case Classic =>
              Agrees(ctxs, shared, classic[c.bucket := Count(classic, c.bucket) + 1], after)
  {
    hide BytesIn, CountAt, BytesAt, AllBytes, SlotBytes, Matches, Count;
    forall h, home | Matches(h, w.held, w.live, home)
      ensures HomeOf(c, w.live) != home ==> Matches(h, w.held + [c], w.live, home)
    {
      MatchesTake(h, w.held, w.live, home, c);
    }
    HeldAppend(w.held, [c], w.live, Shared);
    HeldOne(c, w.live, Shared);
    match c.payer {
      case Ctx(k) =>
        var s := ctxs[k.id];
        MatchesTake(s.live, w.held, w.live, SlotOf(k), c);
        SlotBytesUpdate(ctxs, k.id, s.(live := s.live[c.bucket := Count(s.live, c.bucket) + 1]));
      case Classic =>
        MatchesTake(classic, w.held, w.live, OfClassic, c);
    }
  }

  lemma CreditAgrees(ctxs: map<nat, Slot>, shared: Histogram, classic: Histogram, w: World, i: nat)
    requires Agrees(ctxs, shared, classic, w) && i < |w.held|
    ensures var (c, after) := (w.held[i], w.(held := Without(w.held, i)));
            var b := c.bucket;
            match HomeOf(c, w.live)
            case SlotOf(k) =>
              var s := ctxs[k.id];
              b in s.live && Agrees(ctxs[k.id := s.(live := Set(s.live, b, s.live[b] - 1))],
                                    shared, classic, after)
            case Shared => b in shared && Agrees(ctxs, Set(shared, b, shared[b] - 1), classic, after)
            case OfClassic => b in classic && Agrees(ctxs, shared, Set(classic, b, classic[b] - 1), after)
  {
    hide BytesIn, CountAt, BytesAt, AllBytes, SlotBytes, Matches, Count, Set, Without;
    var c := w.held[i];
    forall h, home | Matches(h, w.held, w.live, home)
      ensures HomeOf(c, w.live) != home ==> Matches(h, Without(w.held, i), w.live, home)
    {
      MatchesCredit(h, w.held, w.live, home, i);
    }
    HeldWithout(w.held, i, w.live, Shared);
    WithoutMembers(w.held, i);
    match HomeOf(c, w.live) {
      case SlotOf(k) =>
        var s := ctxs[k.id];
        MatchesCredit(s.live, w.held, w.live, SlotOf(k), i);
        SlotBytesUpdate(ctxs, k.id, s.(live := Set(s.live, c.bucket, s.live[c.bucket] - 1)));
      case Shared => MatchesCredit(shared, w.held, w.live, Shared, i);
      case OfClassic => MatchesCredit(classic, w.held, w.live, OfClassic, i);
    }
  }

  lemma WithoutMembers(held: seq<Charge>, i: nat)
    requires i < |held|
    ensures forall c :: c in Without(held, i) ==> c in held
  {
  }

  lemma RetireAgrees(ctxs: map<nat, Slot>, shared: Histogram, classic: Histogram, w: World, k: Key,
                     merged: Histogram)
    requires Agrees(ctxs, shared, classic, w) && k in w.live && NoZeros(merged)
    requires forall b :: Count(merged, b) == Count(ctxs[k.id].live, b) + Count(shared, b)
    requires BytesIn(merged) == BytesIn(ctxs[k.id].live) + BytesIn(shared)
    ensures Agrees(ctxs - {k.id}, merged, classic, w.(live := w.live - {k}))
  {
    hide BytesIn, CountAt, BytesAt, AllBytes, SlotBytes, Count;
    var after := w.live - {k};
    forall h, home | Matches(h, w.held, w.live, home) && home != SlotOf(k) && home != Shared
      ensures Matches(h, w.held, after, home)
    {
      HeldRetire(w.held, w.live, k, home);
    }
    HeldRetire(w.held, w.live, k, Shared);
    SlotBytesUpdate(ctxs, k.id, ctxs[k.id]);
  }

  // ------------------------------------------------------------------ whole runs

  datatype Op =
    | Open(key: Key)
    | TryCharge(key: Key, bucket: Bucket)
    | ChargeClassic(bucket: Bucket)
    | Drop(i: nat)
    | Retire(key: Key)

  /** Addition that stops at the largest 64-bit value. */
  function SaturatingAdd(a: nat, b: nat): nat {
    if a + b > B.U64_MAX then B.U64_MAX else a + b
  }

  /** A charge is refused when the sum would pass the cap. The sum it is compared with stops at
      the top of the range, so a cap at the very top refuses nothing. */
  predicate Refuses(cap: B.Option<nat>, live: nat, size: nat): (r: bool)
    ensures r <==> cap.Some? && live + size > cap.value && cap.value < B.U64_MAX
  {
    cap.Some? && SaturatingAdd(live, size) > cap.value
  }

  /** What callers promise: keys are fresh, one account stands per id, an account is used only
      while it stands, and a charge is let go once. */
  ghost predicate Admissible(w: World, op: Op) {
    match op
    case Open(k) => k !in w.used && forall j :: j in w.live ==> j.id != k.id
    case TryCharge(k, _) => k in w.live
    case ChargeClassic(_) => true
    case Drop(i) => i < |w.held|
    case Retire(_) => true
  }

  /** What each operation does to the world, admission included. */
  ghost function Next(cap: B.Option<nat>, w: World, op: Op): World
    requires Admissible(w, op)
  {
    match op
    case Open(k) => World(w.live + {k}, w.used + {k}, w.held)
    case TryCharge(k, b) =>
      if Refuses(cap, AllBytes(w.held), b.size) then w else w.(held := w.held + [Charge(Ctx(k), b)])
    case ChargeClassic(b) => w.(held := w.held + [Charge(Classic, b)])
    case Drop(i) => w.(held := Without(w.held, i))
    case Retire(k) => w.(live := w.live - {k})
  }

  const NOTHING: World := World({}, {}, [])

  ghost predicate Legal(cap: B.Option<nat>, ops: seq<Op>)
    decreases |ops|, 0
  {
    ops == [] || (Legal(cap, ops[..|ops| - 1])
                  && Admissible(After(cap, ops[..|ops| - 1]), ops[|ops| - 1]))
  }

  ghost function After(cap: B.Option<nat>, ops: seq<Op>): World
    requires Legal(cap, ops)
    decreases |ops|, 1
  {
    if ops == [] then NOTHING
    else Next(cap, After(cap, ops[..|ops| - 1]), ops[|ops| - 1])
  }

  function ClassicBytes(held: seq<Charge>): nat {
    if held == [] then 0
    else (if held[0].payer.Classic? then held[0].bucket.size else 0) + ClassicBytes(held[1..])
  }

  lemma {:induction false} ClassicAppend(a: seq<Charge>, b: seq<Charge>)
    ensures ClassicBytes(a + b) == ClassicBytes(a) + ClassicBytes(b)
  {
    if a == [] {
      assert a + b == b;
    } else {
      assert (a + b)[1..] == a[1..] + b;
      ClassicAppend(a[1..], b);
    }
  }

  lemma {:induction false} ClassicIsPart(held: seq<Charge>)
    ensures ClassicBytes(held) <= AllBytes(held)
  {
    if held != [] {
      ClassicIsPart(held[1..]);
    }
  }

  lemma ClassicWithout(held: seq<Charge>, i: nat)
    requires i < |held|
    ensures ClassicBytes(held) == ClassicBytes(Without(held, i))
                                  + if held[i].payer.Classic? then held[i].bucket.size else 0
  {
    var rest := [held[i]] + held[i + 1..];
    assert held == held[..i] + rest && rest[0] == held[i] && rest[1..] == held[i + 1..];
    ClassicAppend(held[..i], rest);
    ClassicAppend(held[..i], held[i + 1..]);
  }

  ghost predicate Capped(cap: nat, held: seq<Charge>) {
    ClassicBytes(held) <= AllBytes(held) <= cap + ClassicBytes(held)
  }

  lemma CapStep(cap: nat, w: World, op: Op)
    requires cap < B.U64_MAX && Capped(cap, w.held) && Admissible(w, op)
    ensures Capped(cap, Next(B.Some(cap), w, op).held)
  {
    hide AllBytes, ClassicBytes, Without, PayersUsed;
    match op {
      case TryCharge(k, b) => OneMore(w.held, Charge(Ctx(k), b));
      case ChargeClassic(b) => OneMore(w.held, Charge(Classic, b));
      case Drop(i) =>
        HeldWithout(w.held, i, w.live, Shared);
        ClassicWithout(w.held, i);
        ClassicIsPart(Without(w.held, i));
      case _ =>
    }
  }

  lemma OneMore(held: seq<Charge>, c: Charge)
    ensures AllBytes(held + [c]) == AllBytes(held) + c.bucket.size
    ensures ClassicBytes(held + [c]) == ClassicBytes(held) + if c.payer.Classic? then c.bucket.size else 0
  {
    HeldAppend(held, [c], {}, Shared);
    ClassicAppend(held, [c]);
    assert [c][1..] == [];
  }

  /** What the cap bounds on every run: everything but classic's bytes, which nothing refuses. */
  lemma {:induction false} CapHolds(cap: nat, ops: seq<Op>)
    requires cap < B.U64_MAX && Legal(B.Some(cap), ops)
    ensures Capped(cap, After(B.Some(cap), ops).held)
  {
    if ops != [] {
      CapHolds(cap, ops[..|ops| - 1]);
      CapStep(cap, After(B.Some(cap), ops[..|ops| - 1]), ops[|ops| - 1]);
    }
  }

  lemma {:induction false} NoClassicCharges(cap: B.Option<nat>, ops: seq<Op>)
    requires Legal(cap, ops) && forall op :: op in ops ==> !op.ChargeClassic?
    ensures forall c :: c in After(cap, ops).held ==> !c.payer.Classic?
  {
    if ops != [] {
      NoClassicCharges(cap, ops[..|ops| - 1]);
      assert ops[|ops| - 1] in ops;
    }
  }

  lemma {:induction false} NoneIsClassic(held: seq<Charge>)
    requires forall c :: c in held ==> !c.payer.Classic?
    ensures ClassicBytes(held) == 0
  {
    if held != [] {
      NoneIsClassic(held[1..]);
    }
  }

  /** On a run in which classic took nothing, the total never passes the cap. */
  lemma CapHoldsWithoutClassic(cap: nat, ops: seq<Op>)
    requires cap < B.U64_MAX && Legal(B.Some(cap), ops)
    requires forall op :: op in ops ==> !op.ChargeClassic?
    ensures AllBytes(After(B.Some(cap), ops).held) <= cap
  {
    CapHolds(cap, ops);
    NoClassicCharges(B.Some(cap), ops);
    NoneIsClassic(After(B.Some(cap), ops).held);
  }

  // ------------------------------------------------------------------ what the operations say

  /** What one operation takes: a charge that fits, and any of classic's. */
  ghost function TakenBy(cap: B.Option<nat>, w: World, op: Op): multiset<Charge> {
    match op
    case TryCharge(k, b) =>
      if cap.None? || AllBytes(w.held) + b.size <= cap.value || cap.value >= 0xffff_ffff_ffff_ffff
      then multiset{Charge(Ctx(k), b)} else multiset{}
    case ChargeClassic(b) => multiset{Charge(Classic, b)}
    case _ => multiset{}
  }

  ghost function LetGoBy(w: World, op: Op): multiset<Charge>
    requires Admissible(w, op)
  {
    if op.Drop? then multiset{w.held[op.i]} else multiset{}
  }

  ghost function Taken(cap: B.Option<nat>, ops: seq<Op>): multiset<Charge>
    requires Legal(cap, ops)
  {
    if ops == [] then multiset{}
    else Taken(cap, ops[..|ops| - 1]) + TakenBy(cap, After(cap, ops[..|ops| - 1]), ops[|ops| - 1])
  }

  ghost function LetGo(cap: B.Option<nat>, ops: seq<Op>): multiset<Charge>
    requires Legal(cap, ops)
  {
    if ops == [] then multiset{}
    else LetGo(cap, ops[..|ops| - 1]) + LetGoBy(After(cap, ops[..|ops| - 1]), ops[|ops| - 1])
  }

  lemma WithoutOne(held: seq<Charge>, i: nat)
    requires i < |held|
    ensures multiset(Without(held, i)) == multiset(held) - multiset{held[i]}
    ensures held[i] in multiset(held)
  {
    assert held == held[..i] + [held[i]] + held[i + 1..];
  }

  lemma StepConserves(cap: B.Option<nat>, w: World, op: Op)
    requires Admissible(w, op)
    ensures multiset(w.held) + TakenBy(cap, w, op) == multiset(Next(cap, w, op).held) + LetGoBy(w, op)
  {
    hide AllBytes, Without, PayersUsed;
    if op.Drop? {
      WithoutOne(w.held, op.i);
    }
  }

  lemma Carried(held: multiset<Charge>, gone: multiset<Charge>, more: multiset<Charge>,
                after: multiset<Charge>, out: multiset<Charge>)
    requires held + more == after + out
    ensures held + gone + more == after + (gone + out)
  {
    assert held + gone + more == (held + more) + gone;
  }

  /** On every run, every charge taken is either still held or was let go, and nothing else is. */
  lemma {:induction false} TakenIsHeldOrLetGo(cap: B.Option<nat>, ops: seq<Op>)
    requires Legal(cap, ops)
    ensures Taken(cap, ops) == multiset(After(cap, ops).held) + LetGo(cap, ops)
  {
    if ops != [] {
      hide Admissible, Next, TakenBy, LetGoBy;
      var (before, op) := (ops[..|ops| - 1], ops[|ops| - 1]);
      var w := After(cap, before);
      TakenIsHeldOrLetGo(cap, before);
      StepConserves(cap, w, op);
      Carried(multiset(w.held), LetGo(cap, before), TakenBy(cap, w, op),
              multiset(Next(cap, w, op).held), LetGoBy(w, op));
    }
  }

  /** On every run, a key stands exactly while it has been opened and not retired since, and a key
      opened is used up. */
  lemma {:induction false} LiveIsOpenedNotRetired(cap: B.Option<nat>, ops: seq<Op>, k: Key)
    requires Legal(cap, ops)
    ensures k in After(cap, ops).live <==>
            exists i :: 0 <= i < |ops| && ops[i] == Op.Open(k)
                        && forall j :: i < j < |ops| ==> ops[j] != Op.Retire(k)
    ensures k in After(cap, ops).used <==> Op.Open(k) in ops
  {
    if ops != [] {
      hide AllBytes, Without, PayersUsed, Refuses;
      var n := |ops| - 1;
      var before := ops[..n];
      LiveIsOpenedNotRetired(cap, before, k);
      assert ops == before + [ops[n]];
      if k in After(cap, before).live && ops[n] != Op.Retire(k) {
        var i :| 0 <= i < n && before[i] == Op.Open(k) && forall j :: i < j < n ==> before[j] != Op.Retire(k);
        assert ops[i] == Op.Open(k) && forall j :: i < j < |ops| ==> ops[j] != Op.Retire(k);
      }
      if i :| 0 <= i < |ops| && ops[i] == Op.Open(k) && forall j :: i < j < |ops| ==> ops[j] != Op.Retire(k) {
        if i < n {
          assert before[i] == Op.Open(k) && forall j :: i < j < n ==> before[j] != Op.Retire(k);
        }
      }
    }
  }

  /** Room let go is room to charge again: after a drop, a charge is admitted exactly when it fits
      beside what is left. */
  lemma DropMakesRoom(cap: nat, w: World, i: nat, k: Key, b: Bucket)
    requires cap < B.U64_MAX && i < |w.held| && k in w.live
    ensures var c := w.held[i];
            var after := Next(B.Some(cap), Next(B.Some(cap), w, Drop(i)), TryCharge(k, b)).held;
            if AllBytes(w.held) - c.bucket.size + b.size <= cap
            then multiset(after) == multiset(w.held) - multiset{c} + multiset{Charge(Ctx(k), b)}
            else multiset(after) == multiset(w.held) - multiset{c}
  {
    hide AllBytes, Without;
    HeldWithout(w.held, i, w.live, Shared);
    WithoutOne(w.held, i);
  }

  /** A credit of a previous occupant's charge never changes what the current one is charged. */
  lemma LateCreditStaysOffTheNewOccupant(w: World, i: nat, current: Key, b: Bucket)
    requires i < |w.held| && w.held[i].payer.Ctx? && current in w.live
    requires w.held[i].payer.key.id == current.id && w.held[i].payer.key != current
    ensures CountAt(Without(w.held, i), w.live, SlotOf(current), b) == CountAt(w.held, w.live, SlotOf(current), b)
    ensures BytesAt(Without(w.held, i), w.live, SlotOf(current)) == BytesAt(w.held, w.live, SlotOf(current))
  {
    HeldWithout(w.held, i, w.live, SlotOf(current));
  }

  // ------------------------------------------------------------------ the watermark

  const WARN_AT: nat := 80
  const REARM_BELOW: nat := 70

  /** The share of the cap taken, rounded down to a percentage and cut to 64 bits. */
  function Percent(live: nat, cap: nat): nat {
    if cap == 0 then 0 else (live * 100 / cap) % B.U64
  }

  /** Whether this sample is reported, and what the latch becomes. */
  function Watermark(warned: bool, live: nat, cap: nat): (bool, bool) {
    var pct := Percent(live, cap);
    if !warned && pct >= WARN_AT then (true, true)
    else if warned && pct < REARM_BELOW then (false, false)
    else (false, warned)
  }

  function WarnedAfter(samples: seq<nat>, cap: nat): bool {
    if samples == [] then false
    else Watermark(WarnedAfter(samples[..|samples| - 1], cap), samples[|samples| - 1], cap).1
  }

  /** Sample `at` was high, and none since has fallen back. */
  ghost predicate HighSince(samples: seq<nat>, cap: nat, at: nat) {
    && at < |samples|
    && Percent(samples[at], cap) >= WARN_AT
    && forall m :: at < m < |samples| ==> Percent(samples[m], cap) >= REARM_BELOW
  }

  lemma LatchStep(before: seq<nat>, live: nat, cap: nat)
    requires WarnedAfter(before, cap) <==> exists at :: HighSince(before, cap, at)
    ensures WarnedAfter(before + [live], cap) <==> exists at :: HighSince(before + [live], cap, at)
  {
    hide Percent;
    var (n, samples) := (|before|, before + [live]);
    assert samples[..n] == before;
    if at: nat :| HighSince(before, cap, at) && Percent(live, cap) >= REARM_BELOW {
      assert HighSince(samples, cap, at);
    } else if Percent(live, cap) >= WARN_AT {
      assert HighSince(samples, cap, n);
    } else if at: nat :| HighSince(samples, cap, at) {
      assert Percent(samples[n], cap) >= REARM_BELOW;
      assert HighSince(before, cap, at) by {
        forall m | at < m < n ensures Percent(before[m], cap) >= REARM_BELOW {
          assert samples[m] == before[m];
        }
      }
    }
  }

  /** The latch says exactly that: something was high, and the total has not fallen back since. */
  lemma {:induction false} LatchMeans(samples: seq<nat>, cap: nat)
    ensures WarnedAfter(samples, cap) <==> exists at :: HighSince(samples, cap, at)
  {
    if samples != [] {
      var n := |samples| - 1;
      LatchMeans(samples[..n], cap);
      LatchStep(samples[..n], samples[n], cap);
      assert samples[..n] + [samples[n]] == samples;
    }
  }

  /** A sample is reported exactly when it is high and every earlier high one has been followed
      by one below the mark that re-arms: a total hovering at the mark is said once. */
  lemma {:induction false} ReportedOncePerClimb(samples: seq<nat>, live: nat, cap: nat)
    ensures Watermark(WarnedAfter(samples, cap), live, cap).0 <==>
            && Percent(live, cap) >= WARN_AT
            && forall at :: 0 <= at < |samples| && Percent(samples[at], cap) >= WARN_AT ==>
                 exists m :: at < m < |samples| && Percent(samples[m], cap) < REARM_BELOW
  {
    LatchMeans(samples, cap);
    hide Percent;
    if at: nat :| HighSince(samples, cap, at) {
      assert forall m :: at < m < |samples| ==> Percent(samples[m], cap) >= REARM_BELOW;
    } else {
      forall at | 0 <= at < |samples| && Percent(samples[at], cap) >= WARN_AT
        ensures exists m :: at < m < |samples| && Percent(samples[m], cap) < REARM_BELOW
      {
        assert !HighSince(samples, cap, at);
      }
    }
  }

  /** The amounts for which a percentage of this cap fits 64 bits. */
  predicate InRange(live: nat, cap: nat) {
    cap > 0 && live * 100 < cap * 0x1_0000_0000_0000_0000
  }

  lemma MarksInAmounts(live: nat, cap: nat)
    requires InRange(live, cap)
    ensures Percent(live, cap) >= WARN_AT <==> 5 * live >= 4 * cap
    ensures Percent(live, cap) < REARM_BELOW <==> 10 * live < 7 * cap
  {
    AtLeast(live * 100, cap, 80);
    AtLeast(live * 100, cap, 70);
    PercentIsWhole(live, cap);
    hide Percent;
  }

  lemma PercentIsWhole(live: nat, cap: nat)
    requires InRange(live, cap)
    ensures Percent(live, cap) == live * 100 / cap
  {
    AtLeast(live * 100, cap, B.U64);
  }

  lemma AtLeast(n: nat, m: nat, a: nat)
    requires m > 0
    ensures n / m >= a <==> n >= a * m
  {
    var q := n / m;
    assert q * m <= n < q * m + m;
    if q >= a {
      assert (q - a) * m >= 0;
    } else {
      assert (a - q - 1) * m >= 0;
    }
  }

  /** One sample in amounts: four fifths of the cap is said once, and less than seven tenths arms it
      again. */
  lemma WatermarkInAmounts(warned: bool, live: nat, cap: nat)
    requires InRange(live, cap)
    ensures Watermark(warned, live, cap).0 <==> !warned && 5 * live >= 4 * cap
    ensures Watermark(warned, live, cap).1 <==> 5 * live >= 4 * cap || (warned && 10 * live >= 7 * cap)
  {
    hide Percent;
    MarksInAmounts(live, cap);
  }

  /** The same over a history of totals: a report comes at four fifths of the cap when every total
      that high before it was followed by one under seven tenths. No cap of zero is ever reported. */
  lemma ReportedInAmounts(samples: seq<nat>, live: nat, cap: nat)
    requires InRange(live, cap) && forall m :: 0 <= m < |samples| ==> InRange(samples[m], cap)
    ensures Watermark(WarnedAfter(samples, cap), live, cap).0 <==>
            && 5 * live >= 4 * cap
            && forall at :: 0 <= at < |samples| && 5 * samples[at] >= 4 * cap ==>
                 exists m :: at < m < |samples| && 10 * samples[m] < 7 * cap
    ensures !Watermark(WarnedAfter(samples, 0), live, 0).0
  {
    hide Percent, Watermark, WarnedAfter, InRange;
    ReportedOncePerClimb(samples, live, cap);
    MarksInAmounts(live, cap);
    forall m | 0 <= m < |samples|
      ensures Percent(samples[m], cap) >= WARN_AT <==> 5 * samples[m] >= 4 * cap
      ensures Percent(samples[m], cap) < REARM_BELOW <==> 10 * samples[m] < 7 * cap
    {
      MarksInAmounts(samples[m], cap);
    }
    NothingOfNothing(samples, live);
  }

  lemma NothingOfNothing(samples: seq<nat>, live: nat)
    ensures !Watermark(WarnedAfter(samples, 0), live, 0).0
  {
  }

  // ------------------------------------------------------------------ what a context is told

  datatype Standing = Standing(own: nat, others: nat, cap: nat) {
    function Ours(heap: nat): nat {
      var left := if cap < others then 0 else cap - others;
      B.Min(B.Max(left, own), heap)
    }

    /** The budget reported for one heap, and the usage beside it: never nothing, never more than
        the hardware has, never below the usage; and within the cap, what others leave of it. */
    function HeapAnswer(heap: nat, driver: nat): (r: (nat, nat))
      ensures 1 <= r.0 <= B.Max(1, Hardware(heap, driver))
      ensures r.1 <= r.0 && r.1 <= own && (r.1 < own ==> r.1 == r.0 == B.Max(1, Hardware(heap, driver)))
      ensures own + others <= cap ==> r.0 == B.Max(1, B.Min(cap - others, Hardware(heap, driver)))
      ensures own + others > cap ==> r.0 == B.Max(1, B.Min(own, Hardware(heap, driver)))
    {
      var answer := B.Max(if driver != 0 then B.Min(Ours(heap), driver) else Ours(heap), 1);
      (answer, B.Min(own, answer))
    }
  }

  /** What the hardware has. A driver figure of zero is a driver that declined to answer. */
  function Hardware(heap: nat, driver: nat): (most: nat)
    ensures most in {heap, driver} && most <= heap && (driver == 0 ==> most == heap)
    ensures driver != 0 ==> most <= driver
  {
    if driver != 0 then B.Min(heap, driver) else heap
  }

  ghost function StandingOf(cap: nat, w: World, k: Key): Standing
    requires k in w.live
  {
    HeldSplits(w.held, w.live, SlotOf(k));
    var own := BytesAt(w.held, w.live, SlotOf(k));
    Standing(own, AllBytes(w.held) - own, cap)
  }

  lemma {:induction false} HeldSplits(held: seq<Charge>, live: set<Key>, home: Home)
    ensures BytesAt(held, live, home) <= AllBytes(held)
  {
    if held != [] {
      HeldSplits(held[1..], live, home);
    }
  }

  /** An admitted charge adds to its own payer's side of the standing and to the others' side of
      everyone else's. */
  lemma StandingAfterCharge(cap: nat, w: World, k: Key, payer: Key, b: Bucket)
    requires k in w.live && payer in w.live && !Refuses(B.Some(cap), AllBytes(w.held), b.size)
    ensures var (st, after) := (StandingOf(cap, w, k), Next(B.Some(cap), w, TryCharge(payer, b)));
            StandingOf(cap, after, k) == if payer == k then st.(own := st.own + b.size)
                                         else st.(others := st.others + b.size)
  {
    hide AllBytes, BytesAt;
    var c := Charge(Ctx(payer), b);
    HeldAppend(w.held, [c], w.live, SlotOf(k));
    HeldOne(c, w.live, SlotOf(k));
    HeldSplits(w.held, w.live, SlotOf(k));
  }

  /** A context's own charges leave what others hold alone and never lower what it is told; while
      the total is within the cap they do not move it at all. */
  lemma OwnChargesNeverLowerTheAnswer(cap: nat, w: World, k: Key, b: Bucket, heap: nat, driver: nat)
    requires k in w.live
    ensures var (st, after) := (StandingOf(cap, w, k),
                                StandingOf(cap, Next(B.Some(cap), w, TryCharge(k, b)), k));
            && after.others == st.others
            && st.HeapAnswer(heap, driver).0 <= after.HeapAnswer(heap, driver).0
            && st.HeapAnswer(heap, driver).1 <= after.HeapAnswer(heap, driver).1
            && (AllBytes(w.held) <= cap < B.U64_MAX ==>
                  st.HeapAnswer(heap, driver).0 == after.HeapAnswer(heap, driver).0)
  {
    hide AllBytes, BytesAt;
    if !Refuses(B.Some(cap), AllBytes(w.held), b.size) {
      StandingAfterCharge(cap, w, k, k, b);
    }
  }

  /** Another context's charge never raises what this one is told. Within the cap it comes out of
      the answer byte for byte exactly when there is room for that: what others leave is what the
      hardware has or less, and something of it is left. A charge past the cap changes nothing. */
  lemma OthersChargesLowerTheAnswer(cap: nat, w: World, k: Key, other: Key, b: Bucket, heap: nat, driver: nat)
    requires k in w.live && other in w.live && other != k
    ensures var (st, later) := (StandingOf(cap, w, k),
                                StandingOf(cap, Next(B.Some(cap), w, TryCharge(other, b)), k));
            var (answer, after) := (st.HeapAnswer(heap, driver).0, later.HeapAnswer(heap, driver).0);
            && after <= answer
            && (AllBytes(w.held) + b.size <= cap < B.U64_MAX ==>
                  (answer == after + b.size <==>
                   b.size == 0 || (cap - st.others <= Hardware(heap, driver) && st.others + b.size < cap)))
            && (AllBytes(w.held) + b.size > cap && cap < B.U64_MAX ==> answer == after)
  {
    hide AllBytes, BytesAt;
    if !Refuses(B.Some(cap), AllBytes(w.held), b.size) {
      StandingAfterCharge(cap, w, k, other, b);
    }
  }

  // ------------------------------------------------------------------ the ledger itself

  datatype Outcome = Granted(charge: Charge) | Refused(what: string, wanted: nat, live: nat, cap: nat)

  /** `more` counts one more of bucket `b` than `h` does, and every other bucket the same. */
  ghost predicate OneMoreIn(h: Histogram, more: Histogram, b: Bucket) {
    forall x :: Count(more, x) == Count(h, x) + if x == b then 1 else 0
  }

  /** Add one to a bucket. */
  method Take(h: Histogram, b: Bucket) returns (r: Histogram)
    ensures r == h[b := Count(h, b) + 1] && OneMoreIn(h, r, b)
  {
    r := if b in h then h[b := h[b] + 1] else h[b := 1];
  }

  /** Credit one charge; the bucket it was taken from must be there. */
  method Credit(h: Histogram, b: Bucket) returns (r: Histogram)
    requires b in h && h[b] > 0
    ensures r == Set(h, b, h[b] - 1) && OneMoreIn(r, h, b)
  {
    r := h[b := h[b] - 1];
    if r[b] == 0 {
      r := r - {b};
      assert r == h - {b};
    }
  }

  class Ledger {
    const cap: B.Option<nat>
    var ctxs: map<nat, Slot>
    var shared: Histogram
    var classic: Histogram
    var warned: bool
    /** What is open and held, as the operations say; and the total after each charge. */
    ghost var world: World
    ghost var samples: seq<nat>

    ghost predicate Valid()
      reads this
    {
      && Agrees(ctxs, shared, classic, world)
      && (cap.Some? ==> warned == WarnedAfter(samples, cap.value))
    }

    constructor (cap: B.Option<nat>)
      ensures Valid() && this.cap == cap && world == NOTHING && samples == []
    {
      this.cap := cap;
      ctxs, shared, classic, warned := map[], map[], map[], false;
      world, samples := NOTHING, [];
      new;
      BytesInNone();
      assert SlotWeights(ctxs) == map[];
    }

    /** The sum over every slot, the shared bucket and classic's. */
    method Bytes() returns (n: nat)
      requires Valid()
      ensures n == AllBytes(world.held)
    {
      hide BytesIn, Matches;
      var left := ctxs;
      n := 0;
      while left != map[]
        invariant n + SlotBytes(left) == SlotBytes(ctxs)
        decreases |left|
      {
        var id :| id in left;
        var slot := BytesOf(left[id].live);
        SlotBytesUpdate(left, id, left[id]);
        n := n + slot;
        left := left - {id};
      }
      assert SlotWeights(map[]) == map[];
      var s := BytesOf(shared);
      var c := BytesOf(classic);
      n := n + s + c;
    }

    /** Open a fresh occupant's slot: the id it takes is standing empty. */
    method Open(k: Key)
      requires Valid() && Admissible(world, Op.Open(k))
      modifies this
      ensures Valid() && world == Next(cap, old(world), Op.Open(k))
      ensures world.live == old(world.live) + {k} && world.held == old(world.held)
      ensures k.id !in old(ctxs) && ctxs == old(ctxs)[k.id := Slot(k, map[])]
      ensures unchanged(`shared, `classic, `warned, `samples)
    {
      hide Matches, SlotBytes, BytesIn, PayersUsed;
      OpenAgrees(ctxs, shared, classic, world, k);
      ctxs := ctxs[k.id := Slot(k, map[])];
      world := World(world.live + {k}, world.used + {k}, world.held);
    }

    /** Look at the total a charge has just reached. */
    method Sample() returns (report: bool)
      requires Agrees(ctxs, shared, classic, world)
      requires cap.Some? ==> warned == WarnedAfter(samples, cap.value)
      modifies `warned, `samples
      ensures Valid() && samples == old(samples) + [AllBytes(world.held)]
      ensures report == (cap.Some? && Watermark(old(warned), AllBytes(world.held), cap.value).0)
      ensures cap.Some? && InRange(AllBytes(world.held), cap.value) ==>
                var (live, limit) := (AllBytes(world.held), cap.value);
                && report == (!old(warned) && 5 * live >= 4 * limit)
                && warned == (5 * live >= 4 * limit || (old(warned) && 10 * live >= 7 * limit))
    {
      hide Agrees, Percent, InRange;
      ghost var live := AllBytes(world.held);
      report := false;
      if cap.Some? {
        var total := Bytes();
        var said := Watermark(warned, total, cap.value);
        report, warned := said.0, said.1;
        if InRange(live, cap.value) {
          WatermarkInAmounts(old(warned), live, cap.value);
        }
      }
      samples := samples + [live];
      assert samples[..|samples| - 1] == old(samples);
    }

    /** Take a charge for this context, or say why not. */
    method TryCharge(k: Key, b: Bucket) returns (r: Outcome, report: bool)
      requires Valid() && Admissible(world, Op.TryCharge(k, b))
      modifies this
      ensures Valid() && world == Next(cap, old(world), Op.TryCharge(k, b))
      ensures match r
              case Granted(c) =>
                && c == Charge(Ctx(k), b) && world.held == old(world.held) + [c]
                && world.live == old(world.live) && k.id in old(ctxs) && old(ctxs)[k.id].key == k
                && OneMoreIn(old(ctxs)[k.id].live, ctxs[k.id].live, b)
                && ctxs == old(ctxs)[k.id := Slot(k, ctxs[k.id].live)]
                && shared == old(shared) && classic == old(classic)
                && (cap.Some? && cap.value < B.U64_MAX ==> AllBytes(world.held) <= cap.value)
                && samples == old(samples) + [AllBytes(world.held)]
                && report == (cap.Some? && Watermark(old(warned), AllBytes(world.held), cap.value).0)
                && (cap.Some? && InRange(AllBytes(world.held), cap.value) ==>
                      report == (!old(warned) && 5 * AllBytes(world.held) >= 4 * cap.value))
              case Refused(what, wanted, live, limit) =>
                && what == b.what && wanted == b.size && live == AllBytes(world.held)
                && cap == B.Some(limit) && live + wanted > limit
                && unchanged(this) && !report
    {
      hide Matches, SlotBytes, BytesIn, PayersUsed, WarnedAfter, Watermark, InRange;
      var live := Bytes();
      if cap.Some? && SaturatingAdd(live, b.size) > cap.value {
        return Refused(b.what, b.size, live, cap.value), false;
      }
      var c := Charge(Ctx(k), b);
      TakeAgrees(ctxs, shared, classic, world, c);
      HeldAppend(world.held, [c], world.live, Shared);
      HeldOne(c, world.live, Shared);
      var slot := ctxs[k.id];
      var taken := Take(slot.live, b);
      ctxs := ctxs[k.id := slot.(live := taken)];
      world := world.(held := world.held + [c]);
      report := Sample();
      return Granted(c), report;
    }

    /** Classic counts and never refuses. */
    method ChargeClassic(b: Bucket) returns (c: Charge, report: bool)
      requires Valid()
      modifies this
      ensures Valid() && world == Next(cap, old(world), Op.ChargeClassic(b))
      ensures c == Charge(Classic, b) && ctxs == old(ctxs) && shared == old(shared)
      ensures world.held == old(world.held) + [c] && world.live == old(world.live)
      ensures OneMoreIn(old(classic), classic, b)
      ensures samples == old(samples) + [AllBytes(world.held)]
      ensures report == (cap.Some? && Watermark(old(warned), AllBytes(world.held), cap.value).0)
      ensures cap.Some? && InRange(AllBytes(world.held), cap.value) ==>
                report == (!old(warned) && 5 * AllBytes(world.held) >= 4 * cap.value)
    {
      hide Matches, SlotBytes, BytesIn, PayersUsed, WarnedAfter, Watermark, InRange;
      c := Charge(Classic, b);
      TakeAgrees(ctxs, shared, classic, world, c);
      classic := Take(classic, b);
      world := world.(held := world.held + [c]);
      report := Sample();
    }

    /** Letting a charge go credits the slot it was taken against, the shared bucket if that
        occupant is gone, or classic: and finds it there, always. */
    method Release(c: Charge, ghost i: nat)
      requires Valid() && Admissible(world, Op.Drop(i)) && world.held[i] == c
      modifies this
      ensures Valid() && world == Next(cap, old(world), Op.Drop(i))
      ensures AllBytes(world.held) + c.bucket.size == old(AllBytes(world.held))
      ensures multiset(world.held) == multiset(old(world.held)) - multiset{c}
      ensures world.live == old(world.live)
      ensures match c.payer
              case Classic =>
                OneMoreIn(classic, old(classic), c.bucket) && ctxs == old(ctxs) && shared == old(shared)
              case Ctx(k) =>
                && classic == old(classic)
                && if k.id in old(ctxs) && old(ctxs)[k.id].key == k
                   then && k.id in ctxs && OneMoreIn(ctxs[k.id].live, old(ctxs)[k.id].live, c.bucket)
                        && ctxs == old(ctxs)[k.id := Slot(k, ctxs[k.id].live)] && shared == old(shared)
                   else OneMoreIn(shared, old(shared), c.bucket) && ctxs == old(ctxs)
      ensures unchanged(`warned, `samples)
    {
      hide Agrees, WarnedAfter, AllBytes, Without, Count, Set, OneMoreIn;
      OccupantIsLive(ctxs, shared, classic, world, c.payer);
      HeldWithout(world.held, i, world.live, Shared);
      WithoutOne(world.held, i);
      NeverZero(ctxs, shared, classic, world);
      CreditAgrees(ctxs, shared, classic, world, i);
      var b := c.bucket;
      match c.payer {
        case Ctx(k) =>
          if k.id in ctxs && ctxs[k.id].key == k {
            var slot := ctxs[k.id];
            var left := Credit(slot.live, b);
            ctxs := ctxs[k.id := slot.(live := left)];
          } else {
            shared := Credit(shared, b);
          }
        case Classic =>
          classic := Credit(classic, b);
      }
      world := world.(held := Without(world.held, i));
    }

    /** Retire an occupant: what it still holds is shared from here on. A slot that stands under
        another occupant stays. */
    method Retire(k: Key)
      requires Valid()
      modifies this
      ensures Valid() && world == Next(cap, old(world), Op.Retire(k))
      ensures world.held == old(world.held) && world.live == old(world.live) - {k}
      ensures if k.id in old(ctxs) && old(ctxs)[k.id].key == k
              then && ctxs == old(ctxs) - {k.id}
                   && forall b :: Count(shared, b) == old(Count(shared, b)) + old(Count(ctxs[k.id].live, b))
              else unchanged(`ctxs, `shared)
      ensures unchanged(`classic, `warned, `samples)
    {
      hide Matches, SlotBytes, BytesIn, PayersUsed, WarnedAfter, Count;
      if k.id !in ctxs || ctxs[k.id].key != k {
        assert k !in world.live;
        assert world.live - {k} == world.live;
        return;
      }
      NeverZero(ctxs, shared, classic, world);
      var merged := DrainInto(ctxs[k.id].live, shared);
      RetireAgrees(ctxs, shared, classic, world, k, merged);
      ctxs, shared := ctxs - {k.id}, merged;
      world := world.(live := world.live - {k});
    }

    /** Where a standing context stands against the cap; no answer without one. */
    method StandingFor(k: Key) returns (r: B.Option<Standing>)
      requires Valid() && k in world.live
      ensures r == match cap case None => B.None case Some(limit) => B.Some(StandingOf(limit, world, k))
    {
      hide SlotBytes, BytesIn, PayersUsed, WarnedAfter, Count;
      if cap.None? {
        return B.None;
      }
      var own := 0;
      if k.id in ctxs {
        own := BytesOf(ctxs[k.id].live);
      }
      var total := Bytes();
      HeldSplits(world.held, world.live, SlotOf(k));
      r := B.Some(Standing(own, if total < own then 0 else total - own, cap.value));
    }
  }

  /** A payer stands exactly when the slot at its id is its own. */
  lemma OccupantIsLive(ctxs: map<nat, Slot>, shared: Histogram, classic: Histogram, w: World, payer: Payer)
    requires Agrees(ctxs, shared, classic, w)
    ensures payer.Ctx? ==>
              (payer.key in w.live <==> payer.key.id in ctxs && ctxs[payer.key.id].key == payer.key)
  {
    hide Matches, SlotBytes, BytesIn;
  }

  lemma NeverZero(ctxs: map<nat, Slot>, shared: Histogram, classic: Histogram, w: World)
    requires Agrees(ctxs, shared, classic, w)
    ensures NoZeros(shared) && NoZeros(classic)
    ensures forall id :: id in ctxs ==> NoZeros(ctxs[id].live)
  {
    hide SlotBytes, BytesIn;
  }
}
