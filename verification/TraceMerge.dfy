/** What a trace records is one history: records and resource events in the order they came. The
    dump keeps them apart, and the stamps put them back together. */
module TraceMerge {
  import opened Bytes
  import opened TraceFormat

  datatype Item<+R, +E> = Did(r: R) | Res(e: E)

  function RecordsOf<R, E>(h: seq<Item<R, E>>): seq<R> {
    if h == [] then []
    else (if h[0].Did? then [h[0].r] else []) + RecordsOf(h[1..])
  }

  /** The events, each stamped with how many records came before it, `n` of them before `h`. */
  function StampsOf<R, E>(h: seq<Item<R, E>>, n: nat): seq<Stamped<E>> {
    if h == [] then []
    else if h[0].Did? then StampsOf(h[1..], n + 1)
    else [Stamped(n, h[0].e)] + StampsOf(h[1..], n)
  }

  lemma {:induction false} RecordsAppend<R, E>(h: seq<Item<R, E>>, x: Item<R, E>)
    ensures RecordsOf(h + [x]) == RecordsOf(h) + (if x.Did? then [x.r] else [])
  {
    if h == [] {
      assert h + [x] == [x];
    } else {
      assert (h + [x])[0] == h[0] && (h + [x])[1..] == h[1..] + [x];
      RecordsAppend(h[1..], x);
      Grouped(if h[0].Did? then [h[0].r] else [], RecordsOf(h[1..]), if x.Did? then [x.r] else []);
    }
  }

  lemma {:induction false} StampsAppend<R, E>(h: seq<Item<R, E>>, n: nat, x: Item<R, E>)
    ensures StampsOf(h + [x], n)
         == StampsOf(h, n) + (if x.Did? then [] else [Stamped(n + |RecordsOf(h)|, x.e)])
  {
    if h == [] {
      assert h + [x] == [x];
    } else {
      assert (h + [x])[1..] == h[1..] + [x];
      StampsAppend(h[1..], if h[0].Did? then n + 1 else n, x);
    }
  }

  /** The history with its first `evicted` records gone. */
  function Survivors<R, E>(h: seq<Item<R, E>>, evicted: nat): seq<Item<R, E>> {
    if h == [] then []
    else if h[0].Did? && evicted > 0 then Survivors(h[1..], evicted - 1)
    else [h[0]] + Survivors(h[1..], evicted)
  }

  /** The events of a history, in order. */
  function EventsOf<R, E>(h: seq<Item<R, E>>): seq<Item<R, E>> {
    if h == [] then [] else (if h[0].Res? then [h[0]] else []) + EventsOf(h[1..])
  }

  /** What survives is the history from some point on, untouched, and of what came before it every
      event and no record; the records before it are the evicted ones. */
  lemma {:induction false} SurvivorsAre<R, E>(h: seq<Item<R, E>>, evicted: nat) returns (at: nat)
    requires evicted <= |RecordsOf(h)|
    ensures at <= |h| && |RecordsOf(h[..at])| == evicted
    ensures Survivors(h, evicted) == EventsOf(h[..at]) + h[at..]
    ensures RecordsOf(h) == RecordsOf(h[..at]) + RecordsOf(h[at..])
  {
    if evicted == 0 {
      at := 0;
      NoneEvicted(h);
      assert h[..0] == [] && h[0..] == h;
    } else {
      var rest := if h[0].Did? then evicted - 1 else evicted;
      var after := SurvivorsAre(h[1..], rest);
      at := after + 1;
      assert h[..at][1..] == h[1..][..after] && h[..at][0] == h[0] && h[at..] == h[1..][after..];
      var (one, events) := (if h[0].Did? then [h[0].r] else [], if h[0].Res? then [h[0]] else []);
      Grouped(one, RecordsOf(h[1..][..after]), RecordsOf(h[at..]));
      Grouped(events, EventsOf(h[1..][..after]), h[at..]);
    }
  }

  lemma {:induction false} NoneEvicted<R, E>(h: seq<Item<R, E>>)
    ensures Survivors(h, 0) == h
  {
    if h != [] {
      NoneEvicted(h[1..]);
    }
  }

  /** Merge records numbered from `first` with stamped events: an event goes before the record
      whose number its stamp is. */
  function Merge<R, E>(first: nat, recs: seq<R>, res: seq<Stamped<E>>): seq<Item<R, E>>
    decreases |recs| + |res|
  {
    if res != [] && (recs == [] || res[0].stamp <= first) then
      [Res(res[0].event)] + Merge(first, recs, res[1..])
    else if recs != [] then [Did(recs[0])] + Merge(first + 1, recs[1..], res)
    else []
  }

  lemma {:induction false} StampsAtLeast<R, E>(h: seq<Item<R, E>>, n: nat)
    ensures forall s :: s in StampsOf(h, n) ==> n <= s.stamp
  {
    if h != [] {
      StampsAtLeast(h[1..], if h[0].Did? then n + 1 else n);
    }
  }

  /** Merging the surviving records with the whole resource log restores the order everything
      that survived arrived in, whatever was evicted. */
  lemma {:induction false} MergeRestoresArrival<R, E>(h: seq<Item<R, E>>, n: nat, evicted: nat)
    requires evicted <= |RecordsOf(h)|
    ensures Merge(n + evicted, RecordsOf(h)[evicted..], StampsOf(h, n)) == Survivors(h, evicted)
  {
    if h == [] {
    } else if h[0].Res? {
      assert StampsOf(h, n)[1..] == StampsOf(h[1..], n);
      assert RecordsOf(h) == RecordsOf(h[1..]);
      MergeRestoresArrival(h[1..], n, evicted);
    } else if evicted > 0 {
      assert RecordsOf(h)[evicted..] == RecordsOf(h[1..])[evicted - 1..];
      MergeRestoresArrival(h[1..], n + 1, evicted - 1);
    } else {
      StampsAtLeast(h[1..], n + 1);
      assert RecordsOf(h)[1..] == RecordsOf(h[1..]);
      MergeRestoresArrival(h[1..], n + 1, 0);
      assert RecordsOf(h[1..])[0..] == RecordsOf(h[1..]);
    }
  }

  // ------------------------------------------------------------------ as the replayer applies it

  /** How many of the events at the front are due once record `number` is done. */
  function Due<E>(res: seq<Stamped<E>>, number: nat): (n: nat)
    ensures n <= |res|
  {
    if res == [] || res[0].stamp > number then 0 else 1 + Due(res[1..], number)
  }

  function Applied<R, E>(res: seq<Stamped<E>>): seq<Item<R, E>> {
    if res == [] then [] else [Res(res[0].event)] + Applied(res[1..])
  }

  /** The replayer's order: each record, and after it the events whose stamps it reaches. What is
      due after no record is never applied. */
  function Replay<R, E>(first: nat, recs: seq<R>, res: seq<Stamped<E>>): seq<Item<R, E>>
    decreases |recs|
  {
    if recs == [] then []
    else
      var n := Due(res, first);
      [Did(recs[0])] + Applied(res[..n]) + Replay(first + 1, recs[1..], res[n..])
  }

  /** A history with every event moved past the next record, `held` of them waiting for it. */
  function Late<R, E>(s: seq<Item<R, E>>, held: seq<Item<R, E>>): seq<Item<R, E>> {
    if s == [] then []
    else if s[0].Res? then Late(s[1..], held + [s[0]])
    else [s[0]] + held + Late(s[1..], [])
  }

  /** `early` are events already waiting, `late` the ones a history still brings. */
  lemma {:induction false} DueSplits<E>(early: seq<Stamped<E>>, late: seq<Stamped<E>>, number: nat)
    requires forall e :: e in early ==> e.stamp <= number
    requires late == [] || late[0].stamp > number
    ensures Due(early + late, number) == |early|
  {
    if early == [] {
      assert early + late == late;
    } else {
      assert (early + late)[1..] == early[1..] + late;
      DueSplits(early[1..], late, number);
    }
  }

  lemma {:induction false} AppliedNext<R, E>(res: seq<Stamped<E>>, e: Stamped<E>)
    ensures Applied<R, E>(res + [e]) == Applied<R, E>(res) + [Res(e.event)]
  {
    if res == [] {
      assert res + [e] == [e];
    } else {
      assert (res + [e])[1..] == res[1..] + [e];
      AppliedNext<R, E>(res[1..], e);
    }
  }

  /** One record replayed: everything waiting is applied after it, and nothing else. */
  lemma ReplayOne<R, E>(first: nat, recs: seq<R>, early: seq<Stamped<E>>, late: seq<Stamped<E>>)
    requires recs != [] && forall e :: e in early ==> e.stamp <= first
    requires late == [] || late[0].stamp > first
    ensures Replay(first, recs, early + late)
         == [Did(recs[0])] + Applied(early) + Replay(first + 1, recs[1..], late)
  {
    DueSplits(early, late, first);
    assert (early + late)[..|early|] == early && (early + late)[|early|..] == late;
  }

  lemma NothingToReplay<R, E>(first: nat, res: seq<Stamped<E>>)
    ensures Replay<R, E>(first, [], res) == [] && Applied<R, E>([]) == []
  {
  }

  lemma {:induction false} LateWithoutRecords<R, E>(h: seq<Item<R, E>>, held: seq<Item<R, E>>)
    requires RecordsOf(h) == []
    ensures Late(h, held) == []
  {
    if h != [] {
      LateWithoutRecords(h[1..], held + [h[0]]);
    }
  }

  lemma LateEvent<R, E>(x: Item<R, E>, s: seq<Item<R, E>>, held: seq<Item<R, E>>)
    requires x.Res?
    ensures Late([x] + s, held) == Late(s, held + [x])
  {
    assert ([x] + s)[1..] == s;
  }

  lemma LateRecord<R, E>(x: Item<R, E>, s: seq<Item<R, E>>, held: seq<Item<R, E>>)
    requires x.Did?
    ensures Late([x] + s, held) == [x] + held + Late(s, [])
  {
    assert ([x] + s)[1..] == s;
  }

  /** Replaying the surviving records against the whole log is the surviving history with every
      event one record late: a record marks the start of a batch, so what it is stamped with waits
      for the batch. */
  lemma {:induction false} ReplayIsOneRecordLate<R, E>(h: seq<Item<R, E>>, n: nat, evicted: nat,
                                                       early: seq<Stamped<E>>)
    requires evicted <= |RecordsOf(h)| && forall e :: e in early ==> e.stamp <= n + evicted
    ensures Replay(n + evicted, RecordsOf(h)[evicted..], early + StampsOf(h, n))
         == Late(Survivors(h, evicted), Applied(early))
  {
    hide Late, Applied, Replay;
    var (recs, log) := (RecordsOf(h)[evicted..], StampsOf(h, n));
    if recs == [] {
      NothingToReplay<R, E>(n + evicted, early + log);
      SurvivingRecords(h, evicted);
      LateWithoutRecords(Survivors(h, evicted), Applied(early));
    } else if h[0].Res? {
      var e := Stamped(n, h[0].e);
      assert log == [e] + StampsOf(h[1..], n) && RecordsOf(h) == RecordsOf(h[1..]);
      Grouped(early, [e], StampsOf(h[1..], n));
      AppliedNext<R, E>(early, e);
      ReplayIsOneRecordLate(h[1..], n, evicted, early + [e]);
      LateEvent(h[0], Survivors(h[1..], evicted), Applied(early));
    } else if evicted > 0 {
      assert recs == RecordsOf(h[1..])[evicted - 1..];
      ReplayIsOneRecordLate(h[1..], n + 1, evicted - 1, early);
    } else {
      StampsAtLeast(h[1..], n + 1);
      ReplayOne(n, recs, early, log);
      assert recs == RecordsOf(h) && recs[1..] == RecordsOf(h[1..])[0..];
      NothingToReplay<R, E>(n, []);
      ReplayIsOneRecordLate(h[1..], n + 1, 0, []);
      assert [] + log == log;
      LateRecord(h[0], Survivors(h[1..], 0), Applied(early));
    }
  }

  lemma {:induction false} SurvivingRecords<R, E>(h: seq<Item<R, E>>, evicted: nat)
    requires evicted <= |RecordsOf(h)|
    ensures RecordsOf(Survivors(h, evicted)) == RecordsOf(h)[evicted..]
  {
    if h != [] {
      if h[0].Did? && evicted > 0 {
        SurvivingRecords(h[1..], evicted - 1);
        assert RecordsOf(h)[evicted..] == RecordsOf(h[1..])[evicted - 1..];
      } else {
        SurvivingRecords(h[1..], evicted);
        assert Survivors(h, evicted)[1..] == Survivors(h[1..], evicted);
      }
    }
  }

  predicate OnlyRecords<R, E>(s: seq<Item<R, E>>) {
    s == [] || (s[0].Did? && OnlyRecords(s[1..]))
  }

  /** Moving events past the next record is no change only where there are none. */
  lemma {:induction false} LateIsSameExactlyWithoutEvents<R, E>(s: seq<Item<R, E>>)
    ensures Late(s, []) == s <==> OnlyRecords(s)
  {
    if s != [] {
      if s[0].Did? {
        LateIsSameExactlyWithoutEvents(s[1..]);
        assert Late(s, [])[1..] == Late(s[1..], []);
        assert s == [s[0]] + s[1..];
      } else {
        assert [] + [s[0]] == [s[0]];
        LateStartsWithARecord(s[1..], [s[0]]);
      }
    }
  }

  lemma {:induction false} LateStartsWithARecord<R, E>(s: seq<Item<R, E>>, held: seq<Item<R, E>>)
    ensures Late(s, held) == [] || Late(s, held)[0].Did?
  {
    if s != [] && s[0].Res? {
      LateStartsWithARecord(s[1..], held + [s[0]]);
    }
  }

  /** So the replayer's order is the order things arrived in exactly when no event was logged. */
  lemma ReplayIsArrivalExactlyWithoutEvents<R, E>(h: seq<Item<R, E>>, evicted: nat)
    requires evicted <= |RecordsOf(h)|
    ensures Replay(evicted, RecordsOf(h)[evicted..], StampsOf(h, 0)) == Survivors(h, evicted)
            <==> StampsOf(h, 0) == []
  {
    ReplayIsOneRecordLate(h, 0, evicted, []);
    assert [] + StampsOf(h, 0) == StampsOf(h, 0);
    LateIsSameExactlyWithoutEvents(Survivors(h, evicted));
    EventsSurvive(h, 0, evicted);
  }

  /** Eviction takes no event. */
  lemma {:induction false} EventsSurvive<R, E>(h: seq<Item<R, E>>, n: nat, evicted: nat)
    ensures var s := Survivors(h, evicted);
            StampsOf(h, n) == [] <==> OnlyRecords(s)
  {
    if h != [] {
      if h[0].Did? && evicted > 0 {
        EventsSurvive(h[1..], n + 1, evicted - 1);
      } else {
        var (s, rest) := (Survivors(h, evicted), Survivors(h[1..], evicted));
        assert s == [h[0]] + rest && s[1..] == rest;
        EventsSurvive(h[1..], if h[0].Did? then n + 1 else n, evicted);
      }
    }
  }

  // ------------------------------------------------------------------ as a reader sees it

  function ViewItem(i: Item<Record, ResEvent>): Item<Parsed, Option<ResEvent>> {
    match i case Did(r) => Did(View(r)) case Res(e) => Res(Some(e))
  }

  function ViewItems(h: seq<Item<Record, ResEvent>>): (v: seq<Item<Parsed, Option<ResEvent>>>)
    ensures |v| == |h|
  {
    seq(|h|, i requires 0 <= i < |h| => ViewItem(h[i]))
  }

  /** What a reader parses of a history is the records and stamps of the history it would see. */
  lemma {:induction false} ViewsCommute(h: seq<Item<Record, ResEvent>>, n: nat)
    requires n + |RecordsOf(h)| < U64
    ensures RecordsOf(ViewItems(h)) == Views(RecordsOf(h))
    ensures StampsOf(ViewItems(h), n) == ResViews(StampsOf(h, n))
  {
    hide View;
    if h == [] {
      assert Views([]) == [] && ResViews([]) == [];
    } else {
      var v := ViewItems(h);
      assert v[1..] == ViewItems(h[1..]);
      ViewsCommute(h[1..], if h[0].Did? then n + 1 else n);
      if h[0].Did? {
        assert Views(RecordsOf(h)) == [View(h[0].r)] + Views(RecordsOf(h[1..]));
      } else {
        assert ResViews(StampsOf(h, n)) == [ResView(Stamped(n, h[0].e))] + ResViews(StampsOf(h[1..], n));
      }
    }
  }

  lemma ViewItemsCons(x: Item<Record, ResEvent>, h: seq<Item<Record, ResEvent>>)
    ensures ViewItems([x] + h) == [ViewItem(x)] + ViewItems(h)
  {
    hide ViewItem;
  }

  lemma {:induction false} SurvivorsCommute(h: seq<Item<Record, ResEvent>>, evicted: nat)
    ensures Survivors(ViewItems(h), evicted) == ViewItems(Survivors(h, evicted))
  {
    hide View;
    if h != [] {
      var v := ViewItems(h);
      assert v[1..] == ViewItems(h[1..]);
      if h[0].Did? && evicted > 0 {
        SurvivorsCommute(h[1..], evicted - 1);
      } else {
        SurvivorsCommute(h[1..], evicted);
        ViewItemsCons(h[0], Survivors(h[1..], evicted));
      }
    }
  }

  /** Merging what a reader parsed gives the surviving history as a reader can see it. */
  lemma ParsedMergeRestoresArrival(h: seq<Item<Record, ResEvent>>, evicted: nat)
    requires evicted <= |RecordsOf(h)| < U64
    ensures Merge(evicted, Views(RecordsOf(h)[evicted..]), ResViews(StampsOf(h, 0)))
         == ViewItems(Survivors(h, evicted))
  {
    hide View, Merge;
    ViewsCommute(h, 0);
    SurvivorsCommute(h, evicted);
    MergeRestoresArrival(ViewItems(h), 0, evicted);
    assert Views(RecordsOf(h)[evicted..]) == Views(RecordsOf(h))[evicted..];
  }
}
