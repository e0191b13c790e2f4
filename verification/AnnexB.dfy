/** Splitting a byte stream of NAL units at its start codes, and putting one together: Annex B,
    clause B.1 of ITU-T H.264. */
module AnnexB {
  import opened Bytes

  const START_CODE: seq<Byte> := [0, 0, 1]

  predicate CodeAt(s: seq<Byte>, i: nat) {
    i + 3 <= |s| && s[i] == 0 && s[i + 1] == 0 && s[i + 2] == 1
  }

  /** Where the first start code is; the length when there is none. */
  function FirstCode(s: seq<Byte>): (at: nat)
    ensures at == |s| || at + 3 <= |s|
  {
    if |s| < 3 then |s| else if CodeAt(s, 0) then 0 else 1 + FirstCode(s[1..])
  }

  /** It is there, and nowhere before. */
  lemma {:induction false} FirstCodeIsFirst(s: seq<Byte>)
    ensures FirstCode(s) < |s| ==> CodeAt(s, FirstCode(s))
    ensures forall i :: 0 <= i < FirstCode(s) ==> !CodeAt(s, i)
  {
    if |s| >= 3 && !CodeAt(s, 0) {
      FirstCodeIsFirst(s[1..]);
      forall i | 0 < i <= FirstCode(s) ensures CodeAt(s, i) == CodeAt(s[1..], i - 1) {
      }
    }
  }

  /** A unit without its trailing zeros. */
  function Strip(u: seq<Byte>): (r: seq<Byte>)
    ensures r <= u && (r == [] || r[|r| - 1] != 0)
  {
    if u == [] || u[|u| - 1] != 0 then u else Strip(u[..|u| - 1])
  }

  /** The units of a stream: after each start code, what is before the next. */
  function Units(s: seq<Byte>): seq<seq<Byte>>
    decreases |s|
  {
    var at := FirstCode(s);
    if at == |s| then []
    else
      var rest := s[at + 3..];
      [Strip(rest[..FirstCode(rest)])] + Units(rest)
  }

  // ------------------------------------------------------------------ the splitter

  /** Where each unit from `at` on starts. */
  ghost function Starts(s: seq<Byte>, at: nat): seq<nat>
    requires at <= |s|
    decreases |s| - at
  {
    var code := at + FirstCode(s[at..]);
    if code == |s| then [] else [code + 3] + Starts(s, code + 3)
  }

  /** A start and the one after it bound one unit. */
  lemma OneUnit(s: seq<Byte>, at: nat)
    requires at <= |s|
    ensures Starts(s, at) == [] ==> Units(s[at..]) == []
    ensures Starts(s, at) != [] ==>
              var start := Starts(s, at)[0];
              && start <= |s| && Starts(s, at)[1..] == Starts(s, start)
              && var end := if Starts(s, start) == [] then |s| else Starts(s, start)[0] - 3;
                 start <= end <= |s| && Units(s[at..]) == [Strip(s[start..end])] + Units(s[start..])
  {
    hide FirstCode, Strip, CodeAt, Units, Starts;
    StartsFrom(s, at);
    UnitsFrom(s, at);
    var first := at + FirstCode(s[at..]);
    if first < |s| {
      StartsFrom(s, first + 3);
      UnitsFrom(s, first + 3);
    }
  }

  lemma StartsFrom(s: seq<Byte>, at: nat)
    requires at <= |s|
    ensures var first := at + FirstCode(s[at..]);
            if first == |s| then Starts(s, at) == []
            else
              && first + 3 <= |s| && Starts(s, at) != []
              && Starts(s, at)[0] == first + 3 && Starts(s, at)[1..] == Starts(s, first + 3)
  {
    hide FirstCode, CodeAt;
  }

  lemma UnitsFrom(s: seq<Byte>, at: nat)
    requires at <= |s|
    ensures var first := at + FirstCode(s[at..]);
            if first == |s| then Units(s[at..]) == []
            else
              && first + 3 <= |s|
              && var rest := s[first + 3..];
                 && first + 3 + FirstCode(rest) <= |s|
                 && Units(s[at..]) == [Strip(s[first + 3..first + 3 + FirstCode(rest)])] + Units(rest)
  {
    hide FirstCode, Strip, CodeAt;
    var first := FirstCode(s[at..]);
    if at + first < |s| {
      Slices(s, at, first + 3);
      Slices(s, at + first + 3, FirstCode(s[at + first + 3..]));
    }
  }

  lemma Slices(s: seq<Byte>, a: nat, b: nat)
    requires a + b <= |s|
    ensures s[a..][b..] == s[a + b..] && s[a..][..b] == s[a..a + b]
  {
  }

  /** The scan, a byte at a time, misses no start code. */
  lemma ScanStep(s: seq<Byte>, i: nat)
    requires i <= |s|
    ensures i + 3 > |s| ==> Starts(s, i) == []
    ensures i + 3 <= |s| && CodeAt(s, i) ==> Starts(s, i) == [i + 3] + Starts(s, i + 3)
    ensures i + 3 <= |s| && !CodeAt(s, i) ==> Starts(s, i) == Starts(s, i + 1)
  {
    if i + 3 <= |s| {
      assert s[i..][..3] == s[i..i + 3];
      assert s[i..][1..] == s[i + 1..];
    }
  }

  method FindStarts(stream: seq<Byte>) returns (starts: seq<nat>)
    ensures starts == Starts(stream, 0)
  {
    hide Starts, FirstCode;
    starts := [];
    var i := 0;
    while i + 3 <= |stream|
      invariant i <= |stream| && starts + Starts(stream, i) == Starts(stream, 0)
    {
      ScanStep(stream, i);
      assert stream[i..i + 3] == [stream[i], stream[i + 1], stream[i + 2]];
      if stream[i..i + 3] == START_CODE {
        starts := starts + [i + 3];
        i := i + 3;
      } else {
        i := i + 1;
      }
    }
    ScanStep(stream, i);
  }

  method TrimEnd(stream: seq<Byte>, s: nat, next: nat) returns (end: nat)
    requires s <= next <= |stream|
    ensures s <= end <= next && stream[s..end] == Strip(stream[s..next])
  {
    end := next;
    while end > s && stream[end - 1] == 0
      invariant s <= end <= next && Strip(stream[s..end]) == Strip(stream[s..next])
    {
      assert stream[s..end][..end - s - 1] == stream[s..end - 1];
      end := end - 1;
    }
  }

  /** Split a stream: one unit for each start code in it. */
  method Nals(stream: seq<Byte>) returns (out: seq<seq<Byte>>)
    ensures out == Units(stream)
  {
    hide Units, Starts, FirstCode, Strip;
    var starts := FindStarts(stream);
    assert stream[0..] == stream;
    out := [];
    var n := 0;
    ghost var at := 0;
    while n < |starts|
      invariant n <= |starts| && at <= |stream|
      invariant starts[n..] == Starts(stream, at) && out + Units(stream[at..]) == Units(stream)
    {
      OneUnit(stream, at);
      var s := starts[n];
      assert starts[n..][1..] == starts[n + 1..];
      var end := TrimEnd(stream, s, if n + 1 < |starts| then starts[n + 1] - 3 else |stream|);
      out := out + [stream[s..end]];
      n, at := n + 1, s;
    }
    OneUnit(stream, at);
  }

  // ------------------------------------------------------------------ framing

  /** A unit, and the zero bytes before its start code: none for a three-byte code, one for a
      four-byte one, more for zeros trailing the unit before. */
  datatype Piece = Piece(zeros: nat, unit: seq<Byte>)

  function Frame(pieces: seq<Piece>, trailing: nat): seq<Byte> {
    if pieces == [] then Zeros(trailing)
    else Zeros(pieces[0].zeros) + START_CODE + pieces[0].unit + Frame(pieces[1..], trailing)
  }

  function UnitsOf(pieces: seq<Piece>): seq<seq<Byte>> {
    if pieces == [] then [] else [pieces[0].unit] + UnitsOf(pieces[1..])
  }

  /** What framing can carry: no start code inside, no zero at the end. */
  ghost predicate Clean(u: seq<Byte>) {
    && (forall i :: 0 <= i < |u| ==> !CodeAt(u, i))
    && (u == [] || u[|u| - 1] != 0)
  }

  lemma FirstIs(s: seq<Byte>, at: nat)
    requires at <= |s| && (at < |s| ==> CodeAt(s, at))
    requires forall i :: 0 <= i < at ==> !CodeAt(s, i)
    ensures FirstCode(s) == at
  {
    FirstCodeIsFirst(s);
  }

  /** Nothing before a clean unit's end looks like a start code, whatever follows it. */
  lemma CleanThen(u: seq<Byte>, rest: seq<Byte>)
    requires Clean(u)
    ensures FirstCode(u + rest) == |u| + FirstCode(rest)
  {
    var s := u + rest;
    forall i | 0 <= i < |u| ensures !CodeAt(s, i) {
      assert !CodeAt(u, i) && s[|u| - 1] == u[|u| - 1] != 0;
    }
    forall i | |u| <= i <= |s| ensures CodeAt(s, i) == CodeAt(rest, i - |u|) {
    }
    FirstCodeIsFirst(rest);
    FirstIs(s, |u| + FirstCode(rest));
  }

  lemma ZerosThen(k: nat, rest: seq<Byte>)
    ensures FirstCode(Zeros(k) + START_CODE + rest) == k
    ensures FirstCode(Zeros(k)) == k
  {
    FirstIs(Zeros(k) + START_CODE + rest, k);
    FirstIs(Zeros(k), k);
  }

  lemma {:induction false} StripZeros(u: seq<Byte>, k: nat)
    requires u == [] || u[|u| - 1] != 0
    ensures Strip(u + Zeros(k)) == u
  {
    if k == 0 {
      assert u + Zeros(0) == u;
    } else {
      assert (u + Zeros(k))[..|u| + k - 1] == u + Zeros(k - 1);
      StripZeros(u, k - 1);
    }
  }

  /** The zeros a frame starts with, before a start code or the end. */
  ghost function LeadingZeros(pieces: seq<Piece>, trailing: nat): nat {
    if pieces == [] then trailing else pieces[0].zeros
  }

  lemma FrameStarts(pieces: seq<Piece>, trailing: nat)
    ensures var (s, k) := (Frame(pieces, trailing), LeadingZeros(pieces, trailing));
            FirstCode(s) == k <= |s| && s[..k] == Zeros(k)
  {
    if pieces == [] {
      ZerosThen(trailing, []);
    } else {
      var rest := pieces[0].unit + Frame(pieces[1..], trailing);
      assert Frame(pieces, trailing) == Zeros(pieces[0].zeros) + START_CODE + rest;
      ZerosThen(pieces[0].zeros, rest);
    }
  }

  /** Splitting undoes framing, for any units framing can carry and any mix of start codes. */
  lemma {:induction false} SplitUndoesFraming(pieces: seq<Piece>, trailing: nat)
    requires forall p :: p in pieces ==> Clean(p.unit)
    ensures Units(Frame(pieces, trailing)) == UnitsOf(pieces)
  {
    hide FirstCode, Strip, CodeAt, Zeros;
    FrameStarts(pieces, trailing);
    if pieces != [] {
      var (u, after) := (pieces[0].unit, Frame(pieces[1..], trailing));
      var (s, rest) := (Frame(pieces, trailing), u + after);
      assert Clean(u);
      FrameStarts(pieces[1..], trailing);
      CleanThen(u, after);
      assert s == Zeros(pieces[0].zeros) + START_CODE + rest;
      assert s[FirstCode(s) + 3..] == rest;
      var k := FirstCode(after);
      assert rest[..FirstCode(rest)] == u + Zeros(k);
      StripZeros(u, k);
      DropClean(u, after);
      SplitUndoesFraming(pieces[1..], trailing);
    }
  }

  lemma DropClean(u: seq<Byte>, after: seq<Byte>)
    requires Clean(u)
    ensures Units(u + after) == Units(after)
  {
    hide FirstCode, Strip, CodeAt, Clean;
    CleanThen(u, after);
    var k := FirstCode(after);
    if k < |after| {
      assert (u + after)[|u| + k + 3..] == after[k + 3..];
    }
  }

  /** Whatever the stream, the units that come out are ones framing can carry. */
  lemma {:induction false} UnitsAreClean(s: seq<Byte>)
    ensures forall u :: u in Units(s) ==> Clean(u)
    decreases |s|
  {
    var at := FirstCode(s);
    if at < |s| {
      var rest := s[at + 3..];
      var (raw, u) := (rest[..FirstCode(rest)], Strip(rest[..FirstCode(rest)]));
      FirstCodeIsFirst(rest);
      forall i | 0 <= i < |u| ensures !CodeAt(u, i) {
        assert !CodeAt(rest, i);
      }
      UnitsAreClean(rest);
    }
  }

  lemma FrameNext(p: Piece, rest: seq<Piece>, trailing: nat)
    ensures Frame([p] + rest, trailing) == Zeros(p.zeros) + [0, 0, 1] + p.unit + Frame(rest, trailing)
    ensures UnitsOf([p] + rest) == [p.unit] + UnitsOf(rest)
    ensures Frame([], trailing) == Zeros(trailing) && UnitsOf([]) == []
  {
    assert ([p] + rest)[1..] == rest;
  }

  lemma TwoPieces()
    ensures var pieces := [Piece(0, [0x67]), Piece(1, [0x68])];
            && (forall p :: p in pieces ==> Clean(p.unit))
            && UnitsOf(pieces) == [[0x67], [0x68]]
            && Frame(pieces, 1) == [0, 0, 1, 0x67, 0, 0, 0, 1, 0x68, 0]
  {
    var (first, second) := (Piece(0, [0x67]), Piece(1, [0x68]));
    FrameNext(second, [], 1);
    FrameNext(first, [second], 1);
    assert [second] + [] == [second] && [first] + [second] == [first, second];
    assert Zeros(1) == [0] && Zeros(0) == [];
    assert Clean([0x67]) && Clean([0x68]);
    hide Frame, UnitsOf, Zeros, Clean;
    assert Frame([second], 1) == [0, 0, 0, 1, 0x68, 0];
  }

  /** A stream with both start codes, one after a zero that trails the unit before it, and a zero at
      the end. */
  lemma TwoUnits()
    ensures Units([0, 0, 1, 0x67, 0, 0, 0, 1, 0x68, 0]) == [[0x67], [0x68]]
  {
    TwoPieces();
    hide Units, Frame, UnitsOf, Clean;
    SplitUndoesFraming([Piece(0, [0x67]), Piece(1, [0x68])], 1);
  }

  /** So the round trip holds exactly for the units framing can carry. */
  lemma RoundTripsExactlyWhenClean(pieces: seq<Piece>, trailing: nat)
    ensures Units(Frame(pieces, trailing)) == UnitsOf(pieces) <==> forall p :: p in pieces ==> Clean(p.unit)
  {
    UnitsAreClean(Frame(pieces, trailing));
    if Units(Frame(pieces, trailing)) == UnitsOf(pieces) {
      forall p | p in pieces ensures Clean(p.unit) {
        InUnits(pieces, p);
      }
    } else if forall p :: p in pieces ==> Clean(p.unit) {
      SplitUndoesFraming(pieces, trailing);
    }
  }

  lemma {:induction false} InUnits(pieces: seq<Piece>, p: Piece)
    requires p in pieces
    ensures p.unit in UnitsOf(pieces)
  {
    if p != pieces[0] {
      InUnits(pieces[1..], p);
    }
  }

  /** Framing what came out of any stream and splitting again gives the same units. */
  lemma SplitAgain(stream: seq<Byte>, pieces: seq<Piece>, trailing: nat)
    requires UnitsOf(pieces) == Units(stream)
    ensures Units(Frame(pieces, trailing)) == Units(stream)
  {
    UnitsAreClean(stream);
    forall p | p in pieces ensures Clean(p.unit) {
      InUnits(pieces, p);
    }
    SplitUndoesFraming(pieces, trailing);
  }
}
