/** Published surfaces and the ids the system recycles: minting, handing over, republishing and
    dropping, interleaved step by step across any number of threads. A step is a region under
    the registry's lock or one call outside it. */
module SurfaceRegistry {
  import opened Bytes

  /** Where a surface is on its way from the mint to its last reference. */
  datatype Phase = Minted | HandedOver | Removed | Released

  /** A surface not yet let go. Its id is its own until it is; its publisher is the one it was
      minted under. */
  datatype Life = Life(id: nat, publisher: Option<nat>, phase: Phase)

  /** A registry entry: the surface it names, and the publisher that surface answers to. */
  datatype Published = Published(surface: nat, publisher: nat)

  /** A call made on a publisher. The receiver is told the id; `surface` is whose call it was. */
  datatype Event =
    | Publish(to: nat, id: nat, surface: nat)
    | Release(to: nat, id: nat, surface: nat)

  /** `used` and `handed` are history: every surface ever minted, and the publisher of each one
      handed over to one. */
  datatype State = State(alive: map<nat, Life>, registry: map<nat, Published>, log: seq<Event>,
                         used: set<nat>, handed: map<nat, nat>)

  /** `port` is whether the system gives a port for the surface when it is asked for one. */
  datatype Step =
    | Mint(surface: nat, id: nat, publisher: Option<nat>)
    | HandOver(surface: nat, port: bool)
    | Republish(id: nat, port: bool)
    | Remove(surface: nat)
    | Announce(surface: nat)
    | Free(surface: nat)

  const START: State := State(map[], map[], [], {}, map[])

  /** The system names a new surface with any id no live surface has; a surface is handed over
      once, dropped once, and dropped in three steps: out of the registry, told to its publisher,
      let go. One with no publisher, or refused before it was handed over, is only let go. */
  ghost predicate Enabled(st: State, step: Step) {
    match step
    case Mint(s, id, _) => s !in st.used && forall t :: t in st.alive ==> st.alive[t].id != id
    case HandOver(s, _) => s in st.alive && st.alive[s].phase == Minted
    case Republish(_, _) => true
    case Remove(s) => s in st.alive && st.alive[s].phase == HandedOver && st.alive[s].publisher.Some?
    case Announce(s) => s in st.alive && st.alive[s].phase == Removed && st.alive[s].publisher.Some?
    case Free(s) =>
      s in st.alive && match st.alive[s].phase
                       case Minted => true
                       case HandedOver => st.alive[s].publisher.None?
                       case Removed => false
                       case Released => true
  }

  ghost function Apply(st: State, step: Step): State
    requires Enabled(st, step)
  {
    match step
    case Mint(s, id, p) => st.(alive := st.alive[s := Life(id, p, Minted)], used := st.used + {s})
    case HandOver(s, port) =>
      var life := st.alive[s];
      var st := st.(alive := st.alive[s := life.(phase := HandedOver)]);
      if life.publisher.None? then st
      else
        var p := life.publisher.value;
        st.(registry := st.registry[life.id := Published(s, p)],
            handed := st.handed[s := p],
            log := if port then st.log + [Publish(p, life.id, s)] else st.log)
    case Republish(id, port) =>
      if id !in st.registry || !port then st
      else st.(log := st.log + [Publish(st.registry[id].publisher, id, st.registry[id].surface)])
    case Remove(s) =>
      st.(alive := st.alive[s := st.alive[s].(phase := Removed)],
          registry := st.registry - {st.alive[s].id})
    case Announce(s) =>
      st.(alive := st.alive[s := st.alive[s].(phase := Released)],
          log := st.log + [Release(st.alive[s].publisher.value, st.alive[s].id, s)])
    case Free(s) => st.(alive := st.alive - {s})
  }

  ghost predicate Legal(steps: seq<Step>)
    decreases |steps|, 0
  {
    steps == [] || (Legal(steps[..|steps| - 1])
                    && Enabled(After(steps[..|steps| - 1]), steps[|steps| - 1]))
  }

  ghost function After(steps: seq<Step>): State
    requires Legal(steps)
    decreases |steps|, 1
  {
    if steps == [] then START else Apply(After(steps[..|steps| - 1]), steps[|steps| - 1])
  }

  // ------------------------------------------------------------------ what a receiver sees

  /** What the receiver behind publisher `to` may be holding under `id`: it is told the id alone,
      so it is whatever was last published there and not released since. */
  ghost function HeldBy(log: seq<Event>, to: nat, id: nat): Option<nat> {
    if log == [] then None
    else
      var e := log[|log| - 1];
      if e.to == to && e.id == id then (if e.Publish? then Some(e.surface) else None)
      else HeldBy(log[..|log| - 1], to, id)
  }

  /** One event after a log: no receiver holds another surface under its id, its surface has not
      been released, and everything said of a surface is said to one publisher under one id. */
  ghost predicate Follows(log: seq<Event>, e: Event) {
    && (forall to: nat :: HeldBy(log, to, e.id) in {None, Some(e.surface)})
    && (forall j :: 0 <= j < |log| && log[j].surface == e.surface ==>
          log[j].Publish? && log[j].to == e.to && log[j].id == e.id)
  }

  /** For each id, runs of publishes of one surface each closed by that surface's one release. */
  ghost predicate Orderly(log: seq<Event>) {
    forall i :: 0 <= i < |log| ==> Follows(log[..i], log[i])
  }

  ghost function ReleasesOf(log: seq<Event>, s: nat): nat {
    if log == [] then 0
    else ReleasesOf(log[..|log| - 1], s)
         + if log[|log| - 1].Release? && log[|log| - 1].surface == s then 1 else 0
  }

  // ------------------------------------------------------------------ what every step keeps

  /** Surface `s` is in the registry's hands: handed over to a publisher and not yet removed. */
  ghost predicate Stands(st: State, s: nat) {
    s in st.alive && st.alive[s].phase == HandedOver && st.alive[s].publisher.Some?
  }

  /** The registry is exactly the standing surfaces, each under the id it has now. */
  ghost predicate RegistryExact(st: State) {
    && (forall id :: id in st.registry ==>
          var e := st.registry[id];
          Stands(st, e.surface) && st.alive[e.surface].id == id
          && st.alive[e.surface].publisher == Some(e.publisher))
    && (forall s :: Stands(st, s) ==>
          st.alive[s].id in st.registry && st.registry[st.alive[s].id].surface == s)
  }

  ghost predicate IdsDistinct(st: State) {
    forall s, t :: s in st.alive && t in st.alive && st.alive[s].id == st.alive[t].id ==> s == t
  }

  /** A receiver may hold only a live surface of its own publisher, under the id it has now, that
      has not been released to it. */
  ghost predicate ReceiversExact(st: State) {
    forall to: nat, id: nat :: HeldBy(st.log, to, id).Some? ==>
      var s := HeldBy(st.log, to, id).value;
      && s in st.alive && st.alive[s].id == id && st.alive[s].publisher == Some(to)
      && (st.alive[s].phase == HandedOver || st.alive[s].phase == Removed)
  }

  /** Everything in the log was said by a surface that was handed over, as it was then. */
  ghost predicate LogExact(st: State) {
    && (forall s :: s in st.handed ==> s in st.used)
    && (forall s :: s in st.alive ==>
          && s in st.used
          && (s in st.handed <==> st.alive[s].publisher.Some? && st.alive[s].phase != Minted)
          && (s in st.handed ==> st.alive[s].publisher == Some(st.handed[s])))
    && (forall j :: 0 <= j < |st.log| ==>
          var e := st.log[j];
          && e.surface in st.handed && st.handed[e.surface] == e.to
          && (e.surface in st.alive ==> st.alive[e.surface].id == e.id)
          && (e.Release? && e.surface in st.alive ==> st.alive[e.surface].phase == Released))
  }

  /** A surface handed over is released once: when its drop says so, and never again. */
  ghost predicate ReleasedOnce(st: State) {
    forall s {:trigger ReleasesOf(st.log, s)} ::
      ReleasesOf(st.log, s)
      == if s in st.handed && (s in st.alive ==> st.alive[s].phase == Released) then 1 else 0
  }

  ghost predicate Inv(st: State) {
    && IdsDistinct(st) && RegistryExact(st) && ReceiversExact(st) && LogExact(st)
    && ReleasedOnce(st) && Orderly(st.log)
  }

  /** One more event leaves every other receiver and id where it was. */
  lemma HeldByNext(log: seq<Event>, e: Event)
    ensures forall to: nat, id: nat :: HeldBy(log + [e], to, id)
                          == if e.to == to && e.id == id
                             then (if e.Publish? then Some(e.surface) else None)
                             else HeldBy(log, to, id)
    ensures forall s {:trigger ReleasesOf(log + [e], s)} ::
              ReleasesOf(log + [e], s) == ReleasesOf(log, s) + if e.Release? && e.surface == s then 1 else 0
    ensures Orderly(log) && Follows(log, e) ==> Orderly(log + [e])
  {
    assert (log + [e])[..|log|] == log;
    hide Follows;
    if Orderly(log) && Follows(log, e) {
      forall i | 0 <= i < |log + [e]| ensures Follows((log + [e])[..i], (log + [e])[i]) {
        if i < |log| {
          assert (log + [e])[..i] == log[..i];
        }
      }
    }
  }

  lemma MintKeeps(st: State, step: Step)
    requires Inv(st) && Enabled(st, step) && step.Mint?
    ensures Inv(Apply(st, step))
  {
    hide HeldBy, ReleasesOf, Orderly;
    assert step.surface !in st.handed;
  }

  /** An event for a live surface not yet released, addressed as it was handed over, follows. */
  lemma FollowsFrom(st: State, e: Event)
    requires Inv(st) && e.surface in st.alive && st.alive[e.surface].id == e.id
    requires st.alive[e.surface].publisher == Some(e.to) && st.alive[e.surface].phase != Released
    ensures Follows(st.log, e)
  {
    hide HeldBy, ReleasesOf, Orderly;
  }

  /** A standing surface may be published again and again. */
  lemma PublishKeeps(st: State, s: nat)
    requires Inv(st) && Stands(st, s)
    ensures var e := Publish(st.alive[s].publisher.value, st.alive[s].id, s);
            Inv(st.(log := st.log + [e]))
  {
    hide HeldBy, ReleasesOf, Orderly, Follows;
    var e := Publish(st.alive[s].publisher.value, st.alive[s].id, s);
    FollowsFrom(st, e);
    HeldByNext(st.log, e);
  }

  /** Handing over never overwrites an entry. */
  lemma HandOverKeeps(st: State, step: Step)
    requires Inv(st) && Enabled(st, step) && step.HandOver?
    ensures Inv(Apply(st, step))
    ensures st.alive[step.surface].publisher.Some? ==> st.alive[step.surface].id !in st.registry
  {
    var (s, life) := (step.surface, st.alive[step.surface]);
    InsertKeeps(st, s);
    if life.publisher.Some? && step.port {
      hide Inv;
      PublishKeeps(Apply(st, HandOver(s, false)), s);
    }
  }

  lemma FreshIsUnregistered(st: State, s: nat)
    requires IdsDistinct(st) && RegistryExact(st) && s in st.alive && !Stands(st, s)
    ensures st.alive[s].id !in st.registry
  {
  }

  lemma InsertKeepsRegistry(st: State, s: nat)
    requires IdsDistinct(st) && RegistryExact(st) && Enabled(st, HandOver(s, false))
    ensures var after := Apply(st, HandOver(s, false)); IdsDistinct(after) && RegistryExact(after)
    ensures st.alive[s].id !in st.registry
  {
    FreshIsUnregistered(st, s);
    var after := Apply(st, HandOver(s, false));
    forall t | t in after.alive
      ensures after.alive[t] == if t == s then st.alive[s].(phase := HandedOver) else st.alive[t]
    {
    }
    forall t | t != s ensures Stands(after, t) == Stands(st, t) {
    }
    hide Apply, Enabled;
  }

  lemma InsertKeepsLog(st: State, s: nat)
    requires LogExact(st) && ReleasedOnce(st) && Enabled(st, HandOver(s, false))
    ensures var after := Apply(st, HandOver(s, false)); LogExact(after) && ReleasedOnce(after)
  {
    hide ReleasesOf;
    var after := Apply(st, HandOver(s, false));
    assert s !in st.handed;
    assert LogExact(after) by {
      hide ReleasedOnce;
    }
    hide LogExact;
  }

  lemma InsertKeeps(st: State, s: nat)
    requires Inv(st) && Enabled(st, HandOver(s, false))
    ensures Inv(Apply(st, HandOver(s, false)))
    ensures st.alive[s].publisher.Some? ==> st.alive[s].id !in st.registry
  {
    InsertKeepsRegistry(st, s);
    InsertKeepsLog(st, s);
    hide HeldBy, Orderly, IdsDistinct, RegistryExact, LogExact, ReleasedOnce;
  }

  lemma RepublishKeeps(st: State, step: Step)
    requires Inv(st) && Enabled(st, step) && step.Republish?
    ensures Inv(Apply(st, step))
  {
    if step.id in st.registry && step.port {
      PublishKeeps(st, st.registry[step.id].surface);
    }
  }

  lemma RemoveKeepsRegistry(st: State, s: nat)
    requires IdsDistinct(st) && RegistryExact(st) && Enabled(st, Remove(s))
    ensures var after := Apply(st, Remove(s)); IdsDistinct(after) && RegistryExact(after)
  {
    var after := Apply(st, Remove(s));
    assert forall t :: Stands(after, t) <==> t != s && Stands(st, t);
  }

  lemma RemoveKeeps(st: State, step: Step)
    requires Inv(st) && Enabled(st, step) && step.Remove?
    ensures Inv(Apply(st, step))
  {
    hide HeldBy, ReleasesOf, Orderly;
    RemoveKeepsRegistry(st, step.surface);
    hide IdsDistinct, RegistryExact;
    assert ReleasedOnce(Apply(st, step)) by {
      hide ReceiversExact;
    }
    hide ReleasedOnce;
  }

  lemma AnnounceKeeps(st: State, step: Step)
    requires Inv(st) && Enabled(st, step) && step.Announce?
    ensures Inv(Apply(st, step))
  {
    hide HeldBy, ReleasesOf, Orderly, Follows;
    var life := st.alive[step.surface];
    var e := Release(life.publisher.value, life.id, step.surface);
    FollowsFrom(st, e);
    HeldByNext(st.log, e);
  }

  lemma FreeKeeps(st: State, step: Step)
    requires Inv(st) && Enabled(st, step) && step.Free?
    ensures Inv(Apply(st, step))
  {
    hide HeldBy, ReleasesOf, Orderly;
  }

  /** Every step of every thread keeps it. */
  lemma StepKeeps(st: State, step: Step)
    requires Inv(st) && Enabled(st, step)
    ensures Inv(Apply(st, step))
  {
    hide Inv, Enabled, Apply;
    match step {
      case Mint(_, _, _) => MintKeeps(st, step);
      case HandOver(_, _) => HandOverKeeps(st, step);
      case Republish(_, _) => RepublishKeeps(st, step);
      case Remove(_) => RemoveKeeps(st, step);
      case Announce(_) => AnnounceKeeps(st, step);
      case Free(_) => FreeKeeps(st, step);
    }
  }

  lemma {:induction false} RunKeeps(steps: seq<Step>)
    requires Legal(steps)
    ensures Inv(After(steps))
  {
    if steps != [] {
      hide Inv, Enabled, Apply;
      RunKeeps(steps[..|steps| - 1]);
      StepKeeps(After(steps[..|steps| - 1]), steps[|steps| - 1]);
    } else {
      assert forall to: nat, id: nat :: HeldBy([], to, id) == None;
    }
  }

  // ------------------------------------------------------------------ what that comes to

  /** On every run, a registry entry names a live surface whose id now is the entry's key; there
      is one for every standing surface; and the registry never has to overwrite. */
  lemma EntriesNameLiveSurfaces(steps: seq<Step>, id: nat)
    requires Legal(steps)
    ensures var st := After(steps);
            && (id in st.registry <==> exists s :: Stands(st, s) && st.alive[s].id == id)
            && (id in st.registry ==> var s := st.registry[id].surface;
                                      Stands(st, s) && st.alive[s].id == id)
            && forall s, port :: Enabled(st, HandOver(s, port)) && st.alive[s].publisher.Some? ==>
                 st.alive[s].id !in st.registry
  {
    RunKeeps(steps);
    hide HeldBy, ReleasesOf, Orderly, After, Legal;
    var st := After(steps);
    if id in st.registry {
      assert Stands(st, st.registry[id].surface);
    }
    if s :| Stands(st, s) && st.alive[s].id == id {
      assert st.alive[s].id in st.registry;
    }
  }

  /** On every run, nothing said under an id can reach a later surface that inherited it. When a
      surface is published or released, every receiver holds that surface or nothing under the
      id; nothing is said of a surface after its release; and what a receiver may hold at the end
      is alive under that id. */
  lemma NoEventReachesAStranger(steps: seq<Step>, i: nat, to: nat)
    requires Legal(steps) && i < |After(steps).log|
    ensures var (st, e) := (After(steps), After(steps).log[i]);
            && HeldBy(st.log[..i], to, e.id) in {None, Some(e.surface)}
            && (forall j :: 0 <= j < i && st.log[j].surface == e.surface ==>
                  st.log[j].Publish? && st.log[j].to == e.to && st.log[j].id == e.id)
            && (HeldBy(st.log, to, e.id).Some? ==>
                  var s := HeldBy(st.log, to, e.id).value;
                  s in st.alive && st.alive[s].id == e.id && st.alive[s].publisher == Some(to))
  {
    RunKeeps(steps);
    hide HeldBy, ReleasesOf, After, Legal;
    var log := After(steps).log;
    assert Follows(log[..i], log[i]);
    forall j | 0 <= j < i ensures log[j] == log[..i][j] {
    }
  }

  /** On every run, a surface handed over is told released exactly once by the time it is gone,
      and to the publisher it was minted under. */
  lemma GoneMeansReleasedOnce(steps: seq<Step>, s: nat)
    requires Legal(steps) && s in After(steps).handed
    ensures var st := After(steps);
            && ReleasesOf(st.log, s) <= 1
            && (s !in st.alive ==> ReleasesOf(st.log, s) == 1)
            && (forall e :: e in st.log && e.surface == s ==> e.to == st.handed[s])
  {
    RunKeeps(steps);
    hide HeldBy, ReleasesOf, Orderly, After, Legal;
  }

  // ------------------------------------------------------------------ what the steps say

  lemma LastStep(steps: seq<Step>)
    requires Legal(steps) && steps != []
    ensures var (before, step) := (steps[..|steps| - 1], steps[|steps| - 1]);
            && Legal(before) && Enabled(After(before), step) && After(steps) == Apply(After(before), step)
            && forall x :: x in steps <==> x in before || x == step
  {
    hide Enabled, Apply;
    Members(steps, steps[..|steps| - 1], steps[|steps| - 1]);
  }

  lemma Members(steps: seq<Step>, before: seq<Step>, step: Step)
    requires steps != [] && before == steps[..|steps| - 1] && step == steps[|steps| - 1]
    ensures forall x :: x in steps <==> x in before || x == step
  {
    assert steps == before + [step];
  }

  lemma Go(steps: seq<Step>, step: Step)
    requires Legal(steps) && Enabled(After(steps), step)
    ensures Legal(steps + [step]) && After(steps + [step]) == Apply(After(steps), step)
  {
    assert (steps + [step])[..|steps|] == steps;
  }

  ghost predicate MintedIn(steps: seq<Step>, s: nat) {
    exists id, p :: Mint(s, id, p) in steps
  }

  predicate HandedOverIn(steps: seq<Step>, s: nat) {
    HandOver(s, true) in steps || HandOver(s, false) in steps
  }

  /** The surface is just what the steps taken on it make it. */
  ghost predicate Says(steps: seq<Step>, st: State, s: nat) {
    && (s in st.used <==> MintedIn(steps, s))
    && (s in st.alive <==> MintedIn(steps, s) && Free(s) !in steps)
    && (!MintedIn(steps, s) ==>
          !HandedOverIn(steps, s) && Remove(s) !in steps && Announce(s) !in steps && Free(s) !in steps)
    && (s in st.alive ==>
          var life := st.alive[s];
          && (forall id, p :: Mint(s, id, p) in steps <==> id == life.id && p == life.publisher)
          && (life.phase != Minted <==> HandedOverIn(steps, s))
          && (life.phase == Removed || life.phase == Released <==> Remove(s) in steps)
          && (life.phase == Released <==> Announce(s) in steps)
          && (Remove(s) in steps ==> life.publisher.Some?))
  }

  lemma StepSays(before: seq<Step>, st: State, step: Step, steps: seq<Step>, s: nat)
    requires Says(before, st, s) && Enabled(st, step) && (s in st.alive ==> s in st.used)
    requires forall x :: x in steps <==> x in before || x == step
    ensures Says(steps, Apply(st, step), s)
  {
    MintedNext(before, step, steps, s);
    hide MintedIn;
    match step {
      case Mint(_, _, _) =>
      case HandOver(_, _) =>
      case Republish(_, _) =>
      case Remove(_) =>
      case Announce(_) =>
      case Free(_) =>
    }
  }

  lemma MintedNext(before: seq<Step>, step: Step, steps: seq<Step>, s: nat)
    requires forall x :: x in steps <==> x in before || x == step
    ensures MintedIn(steps, s) <==> MintedIn(before, s) || (step.Mint? && step.surface == s)
    ensures !MintedIn(before, s) ==> forall id, p :: Mint(s, id, p) !in before
  {
    if step.Mint? && step.surface == s {
      assert Mint(s, step.id, step.publisher) in steps;
    }
  }

  /** On every run a surface is alive exactly when it was minted and not freed, under the id and for
      the publisher it was minted with, and as far along as the steps taken on it. */
  lemma {:induction false} SurfaceIsWhatTheStepsSay(steps: seq<Step>, s: nat)
    requires Legal(steps)
    ensures Says(steps, After(steps), s)
  {
    if steps == [] {
    } else {
      hide Says, Enabled, Apply;
      var before := steps[..|steps| - 1];
      LastStep(steps);
      SurfaceIsWhatTheStepsSay(before, s);
      AliveIsUsed(before, s);
      StepSays(before, After(before), steps[|steps| - 1], steps, s);
    }
  }

  lemma AliveIsUsed(steps: seq<Step>, s: nat)
    requires Legal(steps)
    ensures s in After(steps).alive ==> s in After(steps).used
  {
    RunKeeps(steps);
    hide HeldBy, ReleasesOf, Orderly, After, Legal;
  }

  /** A surface stands exactly when it was minted for a publisher, handed over, and not removed. */
  ghost predicate StandsIn(steps: seq<Step>, s: nat, id: nat, p: nat) {
    && Mint(s, id, Some(p)) in steps && HandedOverIn(steps, s)
    && Remove(s) !in steps && Free(s) !in steps
  }

  lemma StandsExactly(steps: seq<Step>, s: nat, id: nat, p: nat)
    requires Legal(steps)
    ensures StandsIn(steps, s, id, p)
            <==> Stands(After(steps), s) && After(steps).alive[s] == Life(id, Some(p), HandedOver)
  {
    SurfaceIsWhatTheStepsSay(steps, s);
    hide After, Legal;
    assert Mint(s, id, Some(p)) in steps ==> MintedIn(steps, s);
  }

  function PublishesOf(log: seq<Event>, s: nat): nat {
    if log == [] then 0
    else PublishesOf(log[..|log| - 1], s)
         + if log[|log| - 1].Publish? && log[|log| - 1].surface == s then 1 else 0
  }

  /** How often the steps say a surface is published: once when it is handed over to a publisher with
      a port, and once for every republish with a port of the id it stands under. */
  ghost function PublishesDue(steps: seq<Step>, s: nat): nat {
    if steps == [] then 0
    else
      var (before, step) := (steps[..|steps| - 1], steps[|steps| - 1]);
      var more := match step
                  case HandOver(t, port) => t == s && port && exists id, p :: Mint(s, id, Some(p)) in before
                  case Republish(id, port) => port && exists p :: StandsIn(before, s, id, p)
                  case _ => false;
      PublishesDue(before, s) + if more then 1 else 0
  }

  /** On every run each surface is published exactly as often as the steps say, and released exactly
      when they announce it. */
  lemma {:induction false} LogIsWhatTheStepsSay(steps: seq<Step>, s: nat)
    requires Legal(steps)
    ensures PublishesOf(After(steps).log, s) == PublishesDue(steps, s)
    ensures ReleasesOf(After(steps).log, s) == if Announce(s) in steps then 1 else 0
  {
    if steps != [] {
      var (before, step) := (steps[..|steps| - 1], steps[|steps| - 1]);
      LastStep(steps);
      LogIsWhatTheStepsSay(before, s);
      StepPublishes(before, step, s);
      StepReleases(before, step, s);
    }
  }

  lemma OneMoreEvent(log: seq<Event>, e: Event, s: nat)
    ensures PublishesOf(log + [e], s) == PublishesOf(log, s) + if e.Publish? && e.surface == s then 1 else 0
    ensures ReleasesOf(log + [e], s) == ReleasesOf(log, s) + if e.Release? && e.surface == s then 1 else 0
  {
    assert (log + [e])[..|log|] == log;
  }

  lemma StepPublishes(before: seq<Step>, step: Step, s: nat)
    requires Legal(before) && Enabled(After(before), step)
    ensures PublishesOf(Apply(After(before), step).log, s)
         == PublishesOf(After(before).log, s)
            + match step
              case HandOver(t, port) =>
                if t == s && port && exists id, p :: Mint(s, id, Some(p)) in before then 1 else 0
              case Republish(id, port) => if port && exists p :: StandsIn(before, s, id, p) then 1 else 0
              case _ => 0
  {
    RunKeeps(before);
    var st := After(before);
    SurfaceIsWhatTheStepsSay(before, s);
    hide After, Legal, PublishesOf, HeldBy, ReleasesOf, Orderly, ReceiversExact, LogExact, ReleasedOnce;
    match step {
      case HandOver(t, port) =>
        var life := st.alive[t];
        if life.publisher.Some? && port {
          OneMoreEvent(st.log, Publish(life.publisher.value, life.id, t), s);
        }
        if t == s {
          assert life.publisher.Some? ==> Mint(s, life.id, Some(life.publisher.value)) in before;
        }
      case Republish(id, port) =>
        RepublishWho(before, st, id, s);
        if id in st.registry && port {
          OneMoreEvent(st.log, Publish(st.registry[id].publisher, id, st.registry[id].surface), s);
        }
      case Announce(t) =>
        OneMoreEvent(st.log, Release(st.alive[t].publisher.value, st.alive[t].id, t), s);
      case _ =>
    }
  }

  lemma RepublishWho(before: seq<Step>, st: State, id: nat, s: nat)
    requires Legal(before) && st == After(before)
    ensures id in st.registry && st.registry[id].surface == s <==> exists p :: StandsIn(before, s, id, p)
  {
    RunKeeps(before);
    hide After, Legal, StandsIn, HeldBy, ReleasesOf, Orderly, ReceiversExact, LogExact, ReleasedOnce;
    if id in st.registry && st.registry[id].surface == s {
      StandsExactly(before, s, id, st.registry[id].publisher);
    }
    if p :| StandsIn(before, s, id, p) {
      StandsExactly(before, s, id, p);
    }
  }

  lemma StepReleases(before: seq<Step>, step: Step, s: nat)
    requires Legal(before) && Enabled(After(before), step)
    requires ReleasesOf(After(before).log, s) == if Announce(s) in before then 1 else 0
    ensures ReleasesOf(Apply(After(before), step).log, s)
         == if Announce(s) in before || step == Announce(s) then 1 else 0
  {
    var st := After(before);
    SurfaceIsWhatTheStepsSay(before, s);
    hide After, Legal, PublishesOf, HeldBy, ReleasesOf;
    match step {
      case HandOver(t, port) =>
        if st.alive[t].publisher.Some? && port {
          OneMoreEvent(st.log, Publish(st.alive[t].publisher.value, st.alive[t].id, t), s);
        }
      case Republish(id, port) =>
        if id in st.registry && port {
          OneMoreEvent(st.log, Publish(st.registry[id].publisher, id, st.registry[id].surface), s);
        }
      case Announce(t) =>
        OneMoreEvent(st.log, Release(st.alive[t].publisher.value, st.alive[t].id, t), s);
      case _ =>
    }
  }

  /** A surface minted for a publisher and handed over with a port is held behind that publisher,
      under its own id, from then on. */
  lemma HandedOverIsHeld(steps: seq<Step>, s: nat, id: nat, p: nat)
    requires Legal(steps) && Mint(s, id, Some(p)) in steps && !HandedOverIn(steps, s) && Free(s) !in steps
    ensures Legal(steps + [HandOver(s, true)])
    ensures After(steps + [HandOver(s, true)]).log == After(steps).log + [Publish(p, id, s)]
    ensures HeldBy(After(steps + [HandOver(s, true)]).log, p, id) == Some(s)
  {
    SurfaceIsWhatTheStepsSay(steps, s);
    assert MintedIn(steps, s);
    Go(steps, HandOver(s, true));
    HeldByNext(After(steps).log, Publish(p, id, s));
  }

  /** A republish with a port publishes the surface standing under the id, once; any other republish
      says nothing. */
  lemma RepublishSaysOnce(steps: seq<Step>, id: nat, port: bool)
    requires Legal(steps)
    ensures Legal(steps + [Republish(id, port)])
    ensures var (log, after) := (After(steps).log, After(steps + [Republish(id, port)]).log);
            && (forall s, p :: StandsIn(steps, s, id, p) && port ==> after == log + [Publish(p, id, s)])
            && (!port || (forall s, p :: !StandsIn(steps, s, id, p)) ==> after == log)
  {
    Go(steps, Republish(id, port));
    RunKeeps(steps);
    var st := After(steps);
    hide After, Legal, StandsIn, HeldBy, ReleasesOf, Orderly, ReceiversExact, LogExact, ReleasedOnce;
    forall s, p | StandsIn(steps, s, id, p)
      ensures id in st.registry && st.registry[id] == Published(s, p)
    {
      StandsExactly(steps, s, id, p);
    }
    if id in st.registry {
      StandsExactly(steps, st.registry[id].surface, id, st.registry[id].publisher);
    }
  }

  /** A standing surface can be dropped, and then its id can come back for another. */
  lemma IdsComeBack(steps: seq<Step>, s: nat, id: nat, p: nat, t: nat, q: Option<nat>)
    requires Legal(steps) && StandsIn(steps, s, id, p) && !MintedIn(steps, t)
    ensures Legal(steps + [Remove(s)] + [Announce(s)] + [Free(s)] + [Mint(t, id, q)])
  {
    RunKeeps(steps);
    StandsExactly(steps, s, id, p);
    SurfaceIsWhatTheStepsSay(steps, t);
    hide HeldBy, ReleasesOf, Orderly, ReceiversExact, LogExact, ReleasedOnce;
    Go(steps, Remove(s));
    Go(steps + [Remove(s)], Announce(s));
    Go(steps + [Remove(s)] + [Announce(s)], Free(s));
    Go(steps + [Remove(s)] + [Announce(s)] + [Free(s)], Mint(t, id, q));
  }
  /** How many steps of its own a live surface is from being gone. */
  function StepsLeft(life: Life): nat {
    match life.phase
    case Removed => 2
    case HandedOver => if life.publisher.Some? then 3 else 1
    case _ => 1
  }

  lemma OwnStep(st: State, s: nat) returns (step: Step)
    requires s in st.alive && (st.alive[s].phase == Removed ==> st.alive[s].publisher.Some?)
    ensures step in {Remove(s), Announce(s), Free(s)} && Enabled(st, step)
    ensures var after := Apply(st, step);
            if StepsLeft(st.alive[s]) == 1 then s !in after.alive
            else s in after.alive && StepsLeft(after.alive[s]) == StepsLeft(st.alive[s]) - 1
                 && after.alive[s].publisher.Some?
  {
    step := match st.alive[s].phase
      case Removed => Announce(s)
      case HandedOver => if st.alive[s].publisher.Some? then Remove(s) else Free(s)
      case _ => Free(s);
  }

  lemma {:induction false} CanGo(steps: seq<Step>, s: nat) returns (more: seq<Step>)
    requires Legal(steps) && s in After(steps).alive
    requires After(steps).alive[s].phase == Removed ==> After(steps).alive[s].publisher.Some?
    ensures Legal(steps + more) && |more| <= 3 && s !in After(steps + more).alive
    ensures |more| == StepsLeft(After(steps).alive[s])
    ensures forall x :: x in more ==> x in {Remove(s), Announce(s), Free(s)}
    decreases StepsLeft(After(steps).alive[s])
  {
    hide Enabled, Apply, Legal, After;
    var step := OwnStep(After(steps), s);
    Go(steps, step);
    if StepsLeft(After(steps).alive[s]) == 1 {
      more := [step];
    } else {
      var rest := CanGo(steps + [step], s);
      more := [step] + rest;
      assert steps + [step] + rest == steps + more;
    }
  }

  /** However far along it is, a surface not yet freed can be, in at most three steps of its own. */
  lemma EverySurfaceCanGo(steps: seq<Step>, s: nat) returns (more: seq<Step>)
    requires Legal(steps) && MintedIn(steps, s) && Free(s) !in steps
    ensures Legal(steps + more) && |more| <= 3 && s !in After(steps + more).alive
    ensures forall x :: x in more ==> x in {Remove(s), Announce(s), Free(s)}
  {
    SurfaceIsWhatTheStepsSay(steps, s);
    more := CanGo(steps, s);
  }
}
