/** The export query: a resource's layout and, if asked for, a descriptor for each of its planes,
    answered whole or not at all. */
module ExportQuery {
  import opened Bytes
  import opened Layouts

  const EINVAL: int := -22
  /** The size of the structure in the version this build speaks. */
  const STRUCT_SIZE: nat := 88

  /** The process's open descriptors, and the buffer each one names. `refuses` is which of the calls
      for a new one, counted from the first, the system turns down. */
  class Descriptors {
    var open: map<nat, nat>
    var asked: nat
    const refuses: nat -> bool

    constructor (refuses: nat -> bool)
      ensures open == map[] && asked == 0 && this.refuses == refuses
    {
      open, asked, this.refuses := map[], 0, refuses;
    }

    /** A second reference to what `fd` names. */
    method Dup(fd: nat) returns (r: Option<nat>)
      requires fd in open
      modifies this
      ensures asked == old(asked) + 1
      ensures r.None? <==> refuses(old(asked))
      ensures r.None? ==> open == old(open)
      ensures r.Some? ==>
                && r.value !in old(open) && open == old(open)[r.value := old(open)[fd]]
                && forall n :: 0 <= n < r.value ==> n in old(open)
    {
      r := Make(open[fd]);
    }

    /** A new descriptor for a buffer, under the lowest number free. */
    method Make(buffer: nat) returns (r: Option<nat>)
      modifies this
      ensures asked == old(asked) + 1
      ensures r.None? <==> refuses(old(asked))
      ensures r.None? ==> open == old(open)
      ensures r.Some? ==>
                && r.value !in old(open) && open == old(open)[r.value := buffer]
                && forall n :: 0 <= n < r.value ==> n in old(open)
    {
      asked := asked + 1;
      if refuses(asked - 1) {
        return None;
      }
      var n: nat := 0;
      ghost var below: set<nat> := {};
      while n in open
        invariant below <= open.Keys && forall m :: m in below <==> 0 <= m < n
        decreases open.Keys - below
      {
        below := below + {n};
        n := n + 1;
      }
      open := open[n := buffer];
      r := Some(n);
    }

    method Close(fd: nat)
      modifies `open
      ensures open == old(open) - {fd}
    {
      open := open - {fd};
    }

    method CloseAll(fds: seq<nat>)
      modifies `open
      ensures open == old(open) - Set(fds)
    {
      for i := 0 to |fds|
        invariant open == old(open) - Set(fds[..i])
      {
        assert fds[..i + 1] == fds[..i] + [fds[i]];
        Close(fds[i]);
      }
      assert fds[..|fds|] == fds;
    }
  }

  ghost function Set(s: seq<nat>): set<nat> { set n | n in s }

  /** Every one of `fds` naming one buffer. */
  ghost function Naming(fds: seq<nat>, buffer: nat): map<nat, nat> { map n | n in fds :: buffer }

  datatype Shared = Shared(fd: nat, layout: Option<Layout>)

  /** What the renderer can export a resource by: the surface it is presented from, which has a
      layout; the dma-buf it holds, which has one if somebody has described it; or a native buffer
      the kernel makes a descriptor for when asked. */
  datatype Resource =
    | Missing
    | Standing(surface: Option<Shared>, dmabuf: Option<Shared>, native: Option<nat>)
  {
    ghost predicate Valid(open: map<nat, nat>) {
      Standing? ==>
        && (surface.Some? ==> surface.value.fd in open && surface.value.layout.Some?)
        && (dmabuf.Some? ==> dmabuf.value.fd in open)
    }

    /** The routes a resource has, in the order they are tried. */
    ghost function Routes(open: map<nat, nat>): seq<Route>
      requires Standing? && Valid(open)
    {
      (if surface.Some? then [Route(surface.value.layout, open[surface.value.fd])] else [])
      + (if dmabuf.Some? then [Route(dmabuf.value.layout, open[dmabuf.value.fd])] else [])
      + (if native.Some? then [Route(None, native.value)] else [])
    }
  }

  /** The layout a route comes with, and the buffer it exports. */
  datatype Route = Route(layout: Option<Layout>, buffer: nat)

  datatype Export = NoResource | NotExportable | Exported(fd: nat, layout: Option<Layout>)

  /** What exporting comes to when the next call for a descriptor is number `asked`: the route that
      succeeds, if one does, and the calls it takes. */
  datatype Outcome = Outcome(route: Option<Route>, calls: nat)

  ghost function Exporting(resource: Resource, open: map<nat, nat>, refuses: nat -> bool, asked: nat): Outcome
    requires resource.Standing? && resource.Valid(open)
  {
    var second := asked + if resource.surface.Some? then 1 else 0;
    var third := second + if resource.dmabuf.Some? then 1 else 0;
    if second > asked && !refuses(asked) then
      Outcome(Some(Route(resource.surface.value.layout, open[resource.surface.value.fd])), 1)
    else if third > second && !refuses(second) then
      Outcome(Some(Route(resource.dmabuf.value.layout, open[resource.dmabuf.value.fd])), third - asked)
    else if resource.native.Some? && !refuses(third) then
      Outcome(Some(Route(None, resource.native.value)), third + 1 - asked)
    else Outcome(None, third - asked + if resource.native.Some? then 1 else 0)
  }

  /** The first of `routes`, tried from call `asked` on, that the system does not turn down. */
  ghost function FirstGranted(routes: seq<Route>, refuses: nat -> bool, asked: nat): Outcome {
    if routes == [] then Outcome(None, 0)
    else if !refuses(asked) then Outcome(Some(routes[0]), 1)
    else
      var rest := FirstGranted(routes[1..], refuses, asked + 1);
      rest.(calls := rest.calls + 1)
  }

  /** Whatever routes a resource has, it is exported by the first the system grants, with that
      route's layout; and not exported only when it has been turned down on every one. */
  lemma ExportsByTheFirstRouteGranted(resource: Resource, open: map<nat, nat>, refuses: nat -> bool, asked: nat)
    requires resource.Standing? && resource.Valid(open)
    ensures Exporting(resource, open, refuses, asked) == FirstGranted(resource.Routes(open), refuses, asked)
    ensures var o := Exporting(resource, open, refuses, asked);
            && (o.route.None? ==> o.calls == |resource.Routes(open)|)
            && (o.route.Some? ==>
                  && 0 < o.calls <= |resource.Routes(open)| && !refuses(asked + o.calls - 1)
                  && o.route.value == resource.Routes(open)[o.calls - 1])
            && forall a :: asked <= a < asked + o.calls - (if o.route.Some? then 1 else 0) ==> refuses(a)
    ensures resource.surface.Some? && !refuses(asked) ==>
              Exporting(resource, open, refuses, asked).route
              == Some(Route(resource.surface.value.layout, open[resource.surface.value.fd]))
    ensures resource.dmabuf.Some? && (if resource.surface.None? then !refuses(asked)
                                      else refuses(asked) && !refuses(asked + 1)) ==>
              Exporting(resource, open, refuses, asked).route
              == Some(Route(resource.dmabuf.value.layout, open[resource.dmabuf.value.fd]))
  {
    SurfaceThenDmaBuf(resource, open, refuses, asked);
    ExportingIsFirst(resource, open, refuses, asked);
    FirstGrantedMeans(resource.Routes(open), refuses, asked);
    hide Exporting, FirstGranted, Resource.Routes;
  }

  lemma SurfaceThenDmaBuf(resource: Resource, open: map<nat, nat>, refuses: nat -> bool, asked: nat)
    requires resource.Standing? && resource.Valid(open)
    ensures resource.surface.Some? && !refuses(asked) ==>
              Exporting(resource, open, refuses, asked).route
              == Some(Route(resource.surface.value.layout, open[resource.surface.value.fd]))
    ensures resource.dmabuf.Some? && (if resource.surface.None? then !refuses(asked)
                                      else refuses(asked) && !refuses(asked + 1)) ==>
              Exporting(resource, open, refuses, asked).route
              == Some(Route(resource.dmabuf.value.layout, open[resource.dmabuf.value.fd]))
  {
  }

  lemma ExportingIsFirst(resource: Resource, open: map<nat, nat>, refuses: nat -> bool, asked: nat)
    requires resource.Standing? && resource.Valid(open)
    ensures Exporting(resource, open, refuses, asked) == FirstGranted(resource.Routes(open), refuses, asked)
  {
    var s := if resource.surface.Some? then [Route(resource.surface.value.layout, open[resource.surface.value.fd])]
             else [];
    var d := if resource.dmabuf.Some? then [Route(resource.dmabuf.value.layout, open[resource.dmabuf.value.fd])]
             else [];
    var n := if resource.native.Some? then [Route(None, resource.native.value)] else [];
    hide FirstGranted;
    RouteFirst(s, d + n, refuses, asked);
    RouteFirst(d, n, refuses, asked + |s|);
    RouteFirst(n, [], refuses, asked + |s| + |d|);
    NoRoutes(refuses, asked + |s| + |d| + |n|);
    assert resource.Routes(open) == s + (d + n) && n + [] == n;
  }

  lemma NoRoutes(refuses: nat -> bool, asked: nat)
    ensures FirstGranted([], refuses, asked) == Outcome(None, 0)
  {
  }

  lemma RouteFirst(one: seq<Route>, rest: seq<Route>, refuses: nat -> bool, asked: nat)
    requires |one| <= 1
    ensures FirstGranted(one + rest, refuses, asked)
         == if one == [] then FirstGranted(rest, refuses, asked)
            else if !refuses(asked) then Outcome(Some(one[0]), 1)
            else var o := FirstGranted(rest, refuses, asked + 1); o.(calls := o.calls + 1)
  {
    assert one == [] ==> one + rest == rest;
    assert one != [] ==> (one + rest)[1..] == rest;
  }

  lemma {:induction false} FirstGrantedMeans(routes: seq<Route>, refuses: nat -> bool, asked: nat)
    ensures var o := FirstGranted(routes, refuses, asked);
            && (o.route.None? ==> o.calls == |routes|)
            && (o.route.Some? ==> 0 < o.calls <= |routes| && o.route.value == routes[o.calls - 1]
                                   && !refuses(asked + o.calls - 1))
            && forall a :: asked <= a < asked + o.calls - (if o.route.Some? then 1 else 0) ==> refuses(a)
  {
    if routes != [] && refuses(asked) {
      FirstGrantedMeans(routes[1..], refuses, asked + 1);
    }
  }

  /** A reference of the caller's own to a resource's buffer, or none and nothing left open. */
  method ResourceExport(resource: Resource, fds: Descriptors) returns (r: Export)
    requires resource.Valid(fds.open)
    modifies fds
    ensures resource.Missing? ==> r == NoResource && unchanged(fds)
    ensures resource.Standing? ==>
              var o := Exporting(resource, old(fds.open), fds.refuses, old(fds.asked));
              && fds.asked == old(fds.asked) + o.calls
              && match o.route
                 case None => r == NotExportable && fds.open == old(fds.open)
                 case Some(route) =>
                   && r.Exported? && r.layout == route.layout
                   && r.fd !in old(fds.open) && fds.open == old(fds.open)[r.fd := route.buffer]
  {
    if resource.Missing? {
      return NoResource;
    }
    if resource.surface.Some? {
      var dup := fds.Dup(resource.surface.value.fd);
      if dup.Some? {
        return Exported(dup.value, resource.surface.value.layout);
      }
    }
    if resource.dmabuf.Some? {
      var dup := fds.Dup(resource.dmabuf.value.fd);
      if dup.Some? {
        return Exported(dup.value, resource.dmabuf.value.layout);
      }
    }
    if resource.native.Some? {
      var made := fds.Make(resource.native.value);
      if made.Some? {
        return Exported(made.value, None);
      }
    }
    return NotExportable;
  }

  /** The caller's structure: what it asks, and the slots for the answer. */
  class Query {
    const size: nat
    const resourceId: Word
    const exportFds: Word
    var numFds: nat
    var fourcc: Word
    var outFds: seq<int>
    var strides: seq<Word>
    var offsets: seq<Word>
    var modifier: Long

    ghost predicate Valid()
      reads this
    {
      |outFds| == |strides| == |offsets| == MAX_PLANES
    }

    constructor (size: nat, resourceId: Word, exportFds: Word)
      ensures Valid() && this.size == size && this.resourceId == resourceId && this.exportFds == exportFds
    {
      this.size, this.resourceId, this.exportFds := size, resourceId, exportFds;
      numFds, fourcc, modifier := 0, 0, 0;
      outFds, strides, offsets := [0, 0, 0, 0], [0, 0, 0, 0], [0, 0, 0, 0];
    }

    /** The layout and its descriptors are what the structure says, plane by plane, nothing cut;
        slots past the planes are as they were. */
    twostate predicate Answers(layout: Layout, given: seq<nat>)
      reads this
      requires old(Valid()) && Valid() && |given| in {0, |layout.planes|}
    {
      var n := |layout.planes|;
      && numFds == n && fourcc == layout.fourcc && modifier == layout.modifier
      && (forall at :: 0 <= at < n ==>
            && strides[at] == layout.planes[at].pitch && offsets[at] == layout.planes[at].offset
            && outFds[at] == if given == [] then -1 else given[at])
      && (forall at :: n <= at < MAX_PLANES ==>
            strides[at] == old(strides)[at] && offsets[at] == old(offsets)[at] && outFds[at] == old(outFds)[at])
    }
  }

  ghost predicate OffsetsFit(layout: Layout) {
    forall p :: 0 <= p < |layout.planes| ==> layout.planes[p].offset <= U32_MAX
  }

  /** The system gives all of `n` duplicates. */
  ghost predicate Grants(refuses: nat -> bool, from: nat, n: nat) {
    forall a :: from <= a < from + n ==> !refuses(a)
  }

  /** The layout an export comes with, if it succeeds and comes with one. */
  function LayoutGiven(o: Outcome): Option<Layout> {
    if o.route.None? then None else o.route.value.layout
  }

  ghost predicate Distinct(s: seq<nat>) {
    forall i, j :: 0 <= i < j < |s| ==> s[i] != s[j]
  }

  /** Answered exactly when the structure is this version's, the resource is there, and its layout
      and every descriptor asked for can be given; with no layout to claim, only when none was
      asked for. A refusal, at whatever plane, leaves the structure as it was and no descriptor
      open; success opens one descriptor for each plane when they were asked for, new and all
      different, and none otherwise. */
  method ExportQuery(q: Query, resource: Resource, fds: Descriptors) returns (status: int)
    requires q.Valid()
    requires resource.Valid(fds.open)
    modifies q, fds
    ensures q.Valid() && status in {0, -22}
    ensures status == 0 <==>
            && q.size == 88 && q.resourceId != 0 && resource.Standing?
            && var o := Exporting(resource, old(fds.open), fds.refuses, old(fds.asked));
               match LayoutGiven(o)
               case None => q.exportFds == 0
               case Some(layout) =>
                 && layout.planes != []
                 && (forall p :: 0 <= p < |layout.planes| ==> layout.planes[p].offset <= 0xffff_ffff)
                 && var first := old(fds.asked) + o.calls;
                    q.exportFds != 0 ==>
                      forall a :: first <= a < first + |layout.planes| ==> !fds.refuses(a)
    ensures status != 0 ==> unchanged(q) && fds.open == old(fds.open)
    ensures status == 0 ==>
              match LayoutGiven(Exporting(resource, old(fds.open), fds.refuses, old(fds.asked)))
              case None =>
                && q.numFds == 1 && q.fourcc == 0 && q.modifier == 0x00ff_ffff_ffff_ffff
                && q.outFds == [-1] + old(q.outFds)[1..] && q.strides == [0] + old(q.strides)[1..]
                && q.offsets == [0] + old(q.offsets)[1..] && fds.open == old(fds.open)
              case Some(layout) =>
                var n := |layout.planes|;
                && q.numFds == n && q.fourcc == layout.fourcc && q.modifier == layout.modifier
                && (forall at :: 0 <= at < n ==>
                      q.strides[at] == layout.planes[at].pitch && q.offsets[at] == layout.planes[at].offset)
                && (forall at :: n <= at < 4 ==>
                      q.strides[at] == old(q.strides)[at] && q.offsets[at] == old(q.offsets)[at]
                      && q.outFds[at] == old(q.outFds)[at])
                && if q.exportFds == 0
                   then (forall at :: 0 <= at < n ==> q.outFds[at] == -1) && fds.open == old(fds.open)
                   else && (forall i, j :: 0 <= i < j < n ==> q.outFds[i] != q.outFds[j])
                        && (forall i :: 0 <= i < n ==> q.outFds[i] !in old(fds.open))
                        && (forall fd :: fd in fds.open <==> fd in old(fds.open) || fd in q.outFds[..n])
                        && var exported := Exporting(resource, old(fds.open), fds.refuses, old(fds.asked)).route.value;
                           forall fd :: fd in fds.open ==>
                             fds.open[fd] == if fd in old(fds.open) then old(fds.open)[fd] else exported.buffer
  {
    hide Exporting, Distinct, Set, Naming;
    if q.size != STRUCT_SIZE {
      return EINVAL;
    }
    if q.resourceId == 0 {
      return EINVAL;
    }
    var exported := ResourceExport(resource, fds);
    if exported.NoResource? {
      return EINVAL;
    }
    if exported.NotExportable? || exported.layout.None? {
      if exported.Exported? {
        fds.Close(exported.fd);
      }
      if q.exportFds != 0 {
        return EINVAL;
      }
      ClaimNothing(q);
      return 0;
    }
    ghost var (given, names) := ([], fds.open);
    status, given := Describe(q, exported.layout.value, exported.fd, fds);
    if status == 0 {
      if q.exportFds == 0 {
        NoneGiven(given, names[exported.fd]);
      } else {
        GivenAre(q.outFds, given, old(fds.open), fds.open, names[exported.fd]);
      }
    }
  }

  lemma NoneGiven(given: seq<nat>, buffer: nat)
    ensures given == [] ==> Naming(given, buffer) == map[]
  {
  }

  lemma GivenAre(outFds: seq<int>, given: seq<nat>, before: map<nat, nat>, after: map<nat, nat>, buffer: nat)
    requires |given| <= |outFds| && Distinct(given) && forall i :: 0 <= i < |given| ==> outFds[i] == given[i]
    requires Set(given) !! before.Keys && after == before + Naming(given, buffer)
    ensures forall i, j :: 0 <= i < j < |given| ==> outFds[i] != outFds[j]
    ensures forall i :: 0 <= i < |given| ==> outFds[i] !in before
    ensures forall fd :: fd in after <==> fd in before || fd in outFds[..|given|]
    ensures forall fd :: fd in after ==> after[fd] == if fd in before then before[fd] else buffer
  {
    forall i | 0 <= i < |given| ensures outFds[i] in Set(given) {
      assert given[i] in given;
    }
    forall fd | fd in given ensures fd in outFds[..|given|] {
      var i :| 0 <= i < |given| && given[i] == fd;
      assert outFds[..|given|][i] == fd;
    }
  }

  /** The header's way of saying there is no layout to claim. */
  method ClaimNothing(q: Query)
    requires q.Valid()
    modifies q
    ensures q.Valid() && q.numFds == 1 && q.fourcc == 0 && q.modifier == 0x00ff_ffff_ffff_ffff
    ensures q.outFds == [-1] + old(q.outFds)[1..] && q.strides == [0] + old(q.strides)[1..]
    ensures q.offsets == [0] + old(q.offsets)[1..]
  {
    q.numFds, q.fourcc, q.modifier := 1, 0, MOD_INVALID;
    q.outFds, q.strides, q.offsets := q.outFds[0 := -1], q.strides[0 := 0], q.offsets[0 := 0];
  }

  /** Answer with a layout, the call's own reference to its buffer closed on the way out. */
  method Describe(q: Query, layout: Layout, fd: nat, fds: Descriptors) returns (status: int, ghost given: seq<nat>)
    requires q.Valid() && fd in fds.open
    modifies q, fds
    ensures q.Valid() && status in {0, EINVAL}
    ensures status == 0 <==> layout.planes != [] && OffsetsFit(layout)
                             && (q.exportFds != 0 ==> Grants(fds.refuses, old(fds.asked), |layout.planes|))
    ensures status != 0 ==> unchanged(q) && fds.open == old(fds.open) - {fd}
    ensures status == 0 ==>
              && |given| == (if q.exportFds == 0 then 0 else |layout.planes|) && Distinct(given)
              && q.Answers(layout, given)
              && Set(given) !! old(fds.open).Keys
              && fds.open == old(fds.open) - {fd} + Naming(given, old(fds.open)[fd])
  {
    given := [];
    var planes := |layout.planes|;
    if planes == 0 || planes > |q.outFds| {
      fds.Close(fd);
      return EINVAL, [];
    }
    var ok, offsets, dups := Prepare(layout, q.exportFds != 0, fd, fds);
    fds.Close(fd);
    if !ok {
      return EINVAL, [];
    }
    q.numFds, q.fourcc, q.modifier := planes, layout.fourcc, layout.modifier;
    Fill(q, layout, offsets, dups);
    return 0, dups;
  }

  lemma NamedNone(names: map<nat, nat>, buffer: nat)
    ensures Set([]) == {} && Distinct([]) && names + Naming([], buffer) == names
  {
  }

  /** Descriptors made for one buffer leave what was open alone, and closing them puts it back. */
  lemma NamedNext(names: map<nat, nat>, dups: seq<nat>, fd: nat, buffer: nat)
    requires Set(dups) !! names.Keys && fd in names && names[fd] == buffer
    ensures var open := names + Naming(dups, buffer);
            fd in open && open[fd] == buffer && open - Set(dups) == names
  {
  }

  lemma NamedAnother(names: map<nat, nat>, dups: seq<nat>, d: nat, buffer: nat)
    requires Set(dups) !! names.Keys && Distinct(dups) && d !in names + Naming(dups, buffer)
    ensures Set(dups + [d]) !! names.Keys && Distinct(dups + [d])
    ensures names + Naming(dups + [d], buffer) == (names + Naming(dups, buffer))[d := buffer]
  {
  }

  /** Everything a described answer needs, or nothing: the descriptors made before a refusal are
      closed by it. */
  method Prepare(layout: Layout, wanted: bool, fd: nat, fds: Descriptors)
    returns (ok: bool, offsets: seq<Word>, dups: seq<nat>)
    requires fd in fds.open
    modifies fds
    ensures ok <==> OffsetsFit(layout)
                    && (wanted ==> Grants(fds.refuses, old(fds.asked), |layout.planes|))
    ensures !ok ==> fds.open == old(fds.open)
    ensures ok ==> |offsets| == |layout.planes|
                   && forall p :: 0 <= p < |offsets| ==> offsets[p] == layout.planes[p].offset
    ensures ok ==> |dups| == (if wanted then |layout.planes| else 0) && Distinct(dups)
                   && Set(dups) !! old(fds.open).Keys
                   && fds.open == old(fds.open) + Naming(dups, old(fds.open)[fd])
  {
    hide Naming, Set, Distinct;
    offsets, dups := [], [];
    ghost var names := fds.open;
    NamedNone(names, names[fd]);
    for at := 0 to |layout.planes|
      invariant |offsets| == at && forall p :: 0 <= p < at ==> offsets[p] == layout.planes[p].offset
      invariant |dups| == (if wanted then at else 0) && Distinct(dups)
      invariant Set(dups) !! old(fds.open).Keys
      invariant fds.open == old(fds.open) + Naming(dups, old(fds.open)[fd])
      invariant wanted ==> fds.asked == old(fds.asked) + at
      invariant wanted ==> Grants(fds.refuses, old(fds.asked), at)
    {
      var plane := layout.planes[at];
      NamedNext(names, dups, fd, names[fd]);
      if plane.offset > U32_MAX {
        fds.CloseAll(dups);
        return false, [], [];
      }
      offsets := offsets + [plane.offset];
      if wanted {
        var dup := fds.Dup(fd);
        if dup.None? {
          assert fds.refuses(old(fds.asked) + at);
          fds.CloseAll(dups);
          return false, [], [];
        }
        NamedAnother(names, dups, dup.value, names[fd]);
        dups := dups + [dup.value];
      }
    }
    ok := true;
  }

  /** Write the planes into the caller's slots: the descriptors last, `-1` where none was asked. */
  method Fill(q: Query, layout: Layout, offsets: seq<Word>, dups: seq<nat>)
    requires q.Valid() && |offsets| == |layout.planes| && |dups| in {0, |layout.planes|}
    requires forall p :: 0 <= p < |offsets| ==> offsets[p] == layout.planes[p].offset
    modifies q`strides, q`offsets, q`outFds
    ensures q.Valid()
    ensures var n := |layout.planes|;
            && (forall at :: 0 <= at < n ==>
                  && q.strides[at] == layout.planes[at].pitch && q.offsets[at] == layout.planes[at].offset
                  && q.outFds[at] == if dups == [] then -1 else dups[at])
            && (forall at :: n <= at < MAX_PLANES ==>
                  && q.strides[at] == old(q.strides)[at] && q.offsets[at] == old(q.offsets)[at]
                  && q.outFds[at] == old(q.outFds)[at])
  {
    for at := 0 to |layout.planes|
      invariant q.Valid()
      invariant forall k :: 0 <= k < at ==>
                  q.strides[k] == layout.planes[k].pitch && q.offsets[k] == layout.planes[k].offset
                  && q.outFds[k] == -1
      invariant forall k :: at <= k < MAX_PLANES ==>
                  q.strides[k] == old(q.strides)[k] && q.offsets[k] == old(q.offsets)[k]
                  && q.outFds[k] == old(q.outFds)[k]
    {
      q.strides := q.strides[at := layout.planes[at].pitch];
      q.offsets := q.offsets[at := offsets[at]];
      q.outFds := q.outFds[at := -1];
    }
    ghost var before := q.outFds;
    for at := 0 to |dups|
      modifies q`outFds
      invariant q.Valid()
      invariant forall k :: 0 <= k < MAX_PLANES ==> q.outFds[k] == if k < at then dups[k] else before[k]
    {
      q.outFds := q.outFds[at := dups[at]];
    }
  }
}
