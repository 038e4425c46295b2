/** The `Events` bitflags type of epoll-spy: the fifteen epoll event flags,
    `from_bits(..).unwrap_or_default()` as used by the decoders, and the
    `Display` impl that lists the set flags by name in a fixed order. */
module Events {
  import opened Wrappers
  import opened Bytes
  import opened Text

  /** The declared flags, in declaration order (which is also display order). */
  datatype Flag =
    | EpollIn | EpollPri | EpollOut | EpollRdNorm | EpollRdBand | EpollWrNorm
    | EpollWrBand | EpollMsg | EpollErr | EpollHup | EpollRdHup
    | EpollExclusive | EpollWakeup | EpollOneShot | EpollEt

  /** The bit value of each flag constant. */
  function Bit(f: Flag): bv32 {
    match f
    case EpollIn => 0x001
    case EpollPri => 0x002
    case EpollOut => 0x004
    case EpollRdNorm => 0x040
    case EpollRdBand => 0x080
    case EpollWrNorm => 0x100
    case EpollWrBand => 0x200
    case EpollMsg => 0x400
    case EpollErr => 0x008
    case EpollHup => 0x010
    case EpollRdHup => 0x2000
    case EpollExclusive => 0x1000_0000
    case EpollWakeup => 0x2000_0000
    case EpollOneShot => 0x4000_0000
    case EpollEt => 0x8000_0000
  }

  /** The text the `Display` impl pushes for each flag. */
  function Name(f: Flag): string {
    match f
    case EpollIn => "EPOLLIN"
    case EpollPri => "EPOLLPRI"
    case EpollOut => "EPOLLOUT"
    case EpollRdNorm => "EPOLLRDNORM"
    case EpollRdBand => "EPOLLRDBAND"
    case EpollWrNorm => "EPOLLWRNORM"
    case EpollWrBand => "EPOLLWRBAND"
    case EpollMsg => "EPOLLMSG"
    case EpollErr => "EPOLLERR"
    case EpollHup => "EPOLLHUP"
    case EpollRdHup => "EPOLLRDHUP"
    case EpollExclusive => "EPOLLEXCLUSIVE"
    case EpollWakeup => "EPOLLWAKEUP"
    case EpollOneShot => "EPOLLONESHOT"
    case EpollEt => "EPOLLET"
  }

  /** The order in which the `Display` impl tests the flags; it is not numeric order. */
  const DisplayOrder: seq<Flag> := [
    EpollIn, EpollPri, EpollOut, EpollRdNorm, EpollRdBand, EpollWrNorm, EpollWrBand,
    EpollMsg, EpollErr, EpollHup, EpollRdHup, EpollExclusive, EpollWakeup,
    EpollOneShot, EpollEt]

  /** Where a flag stands in `DisplayOrder`. */
  function Position(f: Flag): nat {
    match f
    case EpollIn => 0
    case EpollPri => 1
    case EpollOut => 2
    case EpollRdNorm => 3
    case EpollRdBand => 4
    case EpollWrNorm => 5
    case EpollWrBand => 6
    case EpollMsg => 7
    case EpollErr => 8
    case EpollHup => 9
    case EpollRdHup => 10
    case EpollExclusive => 11
    case EpollWakeup => 12
    case EpollOneShot => 13
    case EpollEt => 14
  }

  /** The union of all declared bits: `Events::all()`. */
  const DeclaredMask: bv32 := 0xF000_27DF

  /** Characters a flag name (or an op name) is spelled with. */
  predicate IsNameChar(c: char) {
    'A' <= c <= 'Z' || c == '_'
  }

  /** Each flag is one bit, and no two flags share a bit. */
  lemma FlagsAreDistinctBits()
    ensures forall f :: Bit(f) != 0 && Bit(f) & (Bit(f) - 1) == 0
    ensures forall f, g :: f != g ==> Bit(f) & Bit(g) == 0
  {
  }

  /** `DisplayOrder` lists every flag exactly once, at its `Position`. */
  lemma DisplayOrderComplete()
    ensures |DisplayOrder| == 15
    ensures forall f :: 0 <= Position(f) < 15 && DisplayOrder[Position(f)] == f
    ensures forall i :: 0 <= i < |DisplayOrder| ==> Position(DisplayOrder[i]) == i
  {
  }

  /** Flag names are non-empty, spelled with name characters, and distinct. */
  lemma NamesWellFormed()
    ensures forall f :: |Name(f)| > 0 && AllOf(Name(f), IsNameChar)
    ensures forall f, g :: Name(f) == Name(g) ==> f == g
  {
    forall f ensures |Name(f)| > 0 && AllOf(Name(f), IsNameChar) {
      NameSpelling(f);
    }
    forall f, g | Name(f) == Name(g) ensures f == g {
      FlagOfNameOfName(f);
      FlagOfNameOfName(g);
    }
  }

  lemma NameSpelling(f: Flag)
    ensures |Name(f)| > 0 && AllOf(Name(f), IsNameChar)
  {
  }

  /** bitflags' `contains`: every bit of f is set in m. */
  predicate Contains(m: bv32, f: Flag) {
    m & Bit(f) == Bit(f)
  }

  /** `Events::from_bits(x).unwrap_or_default()`: x itself when all its set bits
      are declared flags, and otherwise the empty set. */
  function FromBits(x: U32): (m: bv32)
    ensures m & !DeclaredMask == 0
    ensures m == 0 || m == x as bv32
  {
    var b := x as bv32;
    if b & !DeclaredMask == 0 then b else 0
  }

  /** A value with an undeclared bit decodes to the empty set; any other value
      decodes to exactly the flags whose bits it has. */
  lemma FromBitsContains(x: U32, f: Flag)
    ensures (x as bv32) & !DeclaredMask != 0 ==> FromBits(x) == 0
    ensures (x as bv32) & !DeclaredMask == 0 ==> (Contains(FromBits(x), f) <==> Contains(x as bv32, f))
    ensures Contains(FromBits(x), f) ==> Contains(x as bv32, f)
  {
  }

  /** One test of the `Display` impl: the flag if m contains it, else nothing. */
  function Tested(m: bv32, f: Flag): seq<Flag> {
    if Contains(m, f) then [f] else []
  }

  /** The flags of fs that m contains, in the order of fs. */
  function Present(m: bv32, fs: seq<Flag>): (r: seq<Flag>)
    ensures |r| <= |fs|
  {
    if fs == [] then [] else Tested(m, fs[0]) + Present(m, fs[1..])
  }

  /** The present flags are exactly the flags of fs that m contains. */
  lemma {:induction false} PresentMembers(m: bv32, fs: seq<Flag>)
    ensures forall f :: f in Present(m, fs) <==> f in fs && Contains(m, f)
  {
    if fs != [] {
      PresentMembers(m, fs[1..]);
      assert fs == [fs[0]] + fs[1..];
    }
  }

  function Names(fs: seq<Flag>): (r: seq<string>)
    ensures |r| == |fs|
    ensures forall i :: 0 <= i < |fs| ==> r[i] == Name(fs[i])
  {
    seq(|fs|, i requires 0 <= i < |fs| => Name(fs[i]))
  }

  /** The names the `Display` impl collects for m, in display order. */
  function FlagNames(m: bv32): seq<string> {
    Names(Present(m, DisplayOrder))
  }

  /** `Display for Events`: the collected names joined by " | ". */
  function Render(m: bv32): string {
    Join(FlagNames(m), Bar)
  }

  /** The union of the bits of fs. */
  function MaskOf(fs: seq<Flag>): bv32 {
    if fs == [] then 0 else Bit(fs[0]) | MaskOf(fs[1..])
  }

  /** The flag a rendered name stands for. */
  function FlagOfName(s: string): (r: Option<Flag>)
    ensures r.Some? ==> Name(r.value) == s
  {
    if s == "EPOLLIN" then Some(EpollIn)
    else if s == "EPOLLPRI" then Some(EpollPri)
    else if s == "EPOLLOUT" then Some(EpollOut)
    else if s == "EPOLLRDNORM" then Some(EpollRdNorm)
    else if s == "EPOLLRDBAND" then Some(EpollRdBand)
    else if s == "EPOLLWRNORM" then Some(EpollWrNorm)
    else if s == "EPOLLWRBAND" then Some(EpollWrBand)
    else if s == "EPOLLMSG" then Some(EpollMsg)
    else if s == "EPOLLERR" then Some(EpollErr)
    else if s == "EPOLLHUP" then Some(EpollHup)
    else if s == "EPOLLRDHUP" then Some(EpollRdHup)
    else if s == "EPOLLEXCLUSIVE" then Some(EpollExclusive)
    else if s == "EPOLLWAKEUP" then Some(EpollWakeup)
    else if s == "EPOLLONESHOT" then Some(EpollOneShot)
    else if s == "EPOLLET" then Some(EpollEt)
    else None
  }

  /** The union of the flags a list of rendered names stands for; None if some
      name is not a flag name. */
  function MaskOfNames(names: seq<string>): Option<bv32> {
    if names == [] then Some(0)
    else match (FlagOfName(names[0]), MaskOfNames(names[1..]))
      case (Some(f), Some(rest)) => Some(Bit(f) | rest)
      case _ => None
  }

  lemma FlagOfNameOfName(f: Flag)
    ensures FlagOfName(Name(f)) == Some(f)
  {
  }

  /** A flag name appears in the rendered list exactly when m contains the flag. */
  lemma FlagNamesMembership(m: bv32, f: Flag)
    ensures Name(f) in FlagNames(m) <==> Contains(m, f)
  {
    NamesMembership(Present(m, DisplayOrder), f);
    PresentMembers(m, DisplayOrder);
    InDisplayOrder(f);
  }

  /** Names are distinct, so a flag's name is listed exactly when the flag is. */
  lemma NamesMembership(fs: seq<Flag>, f: Flag)
    ensures Name(f) in Names(fs) <==> f in fs
  {
    NamesWellFormed();
    if Name(f) in Names(fs) {
      var i :| 0 <= i < |fs| && Names(fs)[i] == Name(f);
      assert fs[i] == f;
    }
    if f in fs {
      var i :| 0 <= i < |fs| && fs[i] == f;
      assert Names(fs)[i] == Name(f);
    }
  }

  /** Strictly increasing display positions. */
  predicate Ordered(fs: seq<Flag>) {
    forall i, j :: 0 <= i < j < |fs| ==> Position(fs[i]) < Position(fs[j])
  }

  /** In a sequence of flags ordered by position, the present ones stay ordered. */
  lemma {:induction false} PresentOrdered(m: bv32, fs: seq<Flag>)
    requires Ordered(fs)
    ensures Ordered(Present(m, fs))
  {
    if fs != [] {
      PresentOrdered(m, fs[1..]);
      PresentMembers(m, fs[1..]);
      var r := Present(m, fs);
      var tail := Present(m, fs[1..]);
      forall k | 0 <= k < |tail|
        ensures Position(fs[0]) < Position(tail[k])
      {
        assert tail[k] in fs[1..];
        var l :| 0 <= l < |fs| - 1 && fs[1..][l] == tail[k];
        assert fs[l + 1] == tail[k];
      }
      if Contains(m, fs[0]) {
        assert r == [fs[0]] + tail;
        forall i, j | 0 <= i < j < |r|
          ensures Position(r[i]) < Position(r[j])
        {
          assert r[j] == tail[j - 1];
          if i > 0 {
            assert r[i] == tail[i - 1];
          }
        }
      } else {
        assert r == tail;
      }
    }
  }

  /** Names appear in display order: each name's flag stands later in
      `DisplayOrder` than the flag of every name before it. Hence no name repeats. */
  lemma FlagNamesOrdered(m: bv32)
    ensures FlagNames(m) == Names(Present(m, DisplayOrder))
    ensures Ordered(Present(m, DisplayOrder))
    ensures forall i, j :: 0 <= i < j < |FlagNames(m)| ==> FlagNames(m)[i] != FlagNames(m)[j]
  {
    DisplayOrderComplete();
    NamesWellFormed();
    PresentOrdered(m, DisplayOrder);
  }

  /** The flags of fs that m contains, as a set. */
  ghost function Contained(m: bv32, fs: seq<Flag>): set<Flag> {
    set f | f in fs && Contains(m, f)
  }

  lemma ContainedCons(m: bv32, fs: seq<Flag>)
    requires fs != []
    ensures Contained(m, fs) == Contained(m, fs[1..]) + (if Contains(m, fs[0]) then {fs[0]} else {})
  {
    assert fs == [fs[0]] + fs[1..];
  }

  /** For distinct flags, the number of present ones is the number m contains. */
  lemma {:induction false} PresentCount(m: bv32, fs: seq<Flag>)
    requires forall i, j :: 0 <= i < j < |fs| ==> fs[i] != fs[j]
    ensures |Present(m, fs)| == |Contained(m, fs)|
  {
    if fs != [] {
      PresentCount(m, fs[1..]);
      ContainedCons(m, fs);
      assert fs[0] !in fs[1..];
      assert fs[0] !in Contained(m, fs[1..]);
    }
  }

  lemma FlagNamesCount(m: bv32)
    ensures |FlagNames(m)| == |set f: Flag | Contains(m, f)|
  {
    DisplayOrderComplete();
    PresentCount(m, DisplayOrder);
    forall f ensures f in DisplayOrder {
      InDisplayOrder(f);
    }
    assert Contained(m, DisplayOrder) == set f: Flag | Contains(m, f);
  }

  /** A flag is in the union of fs exactly when it is one of fs. */
  lemma {:induction false} MaskOfContains(fs: seq<Flag>, f: Flag)
    ensures Contains(MaskOf(fs), f) <==> f in fs
  {
    FlagsAreDistinctBits();
    if fs != [] {
      MaskOfContains(fs[1..], f);
      assert fs == [fs[0]] + fs[1..];
      UnionWithBit(Bit(fs[0]), MaskOf(fs[1..]), Bit(f));
    }
  }

  lemma UnionWithBit(x: bv32, y: bv32, b: bv32)
    requires b != 0 && b & (b - 1) == 0
    ensures (x | y) & b == b <==> x & b == b || y & b == b
  {
  }

  /** A union of flags has no undeclared bit. */
  lemma {:induction false} MaskOfDeclared(fs: seq<Flag>)
    ensures MaskOf(fs) & !DeclaredMask == 0
  {
    if fs != [] {
      MaskOfDeclared(fs[1..]);
      assert Bit(fs[0]) & !DeclaredMask == 0;
    }
  }

  /** A mask without undeclared bits is determined by the flags it contains. */
  lemma MaskDeterminedByFlags(m1: bv32, m2: bv32)
    requires m1 & !DeclaredMask == 0 && m2 & !DeclaredMask == 0
    requires forall f :: Contains(m1, f) <==> Contains(m2, f)
    ensures m1 == m2
  {
    assert Contains(m1, EpollIn) <==> Contains(m2, EpollIn);
    assert Contains(m1, EpollPri) <==> Contains(m2, EpollPri);
    assert Contains(m1, EpollOut) <==> Contains(m2, EpollOut);
    assert Contains(m1, EpollRdNorm) <==> Contains(m2, EpollRdNorm);
    assert Contains(m1, EpollRdBand) <==> Contains(m2, EpollRdBand);
    assert Contains(m1, EpollWrNorm) <==> Contains(m2, EpollWrNorm);
    assert Contains(m1, EpollWrBand) <==> Contains(m2, EpollWrBand);
    assert Contains(m1, EpollMsg) <==> Contains(m2, EpollMsg);
    assert Contains(m1, EpollErr) <==> Contains(m2, EpollErr);
    assert Contains(m1, EpollHup) <==> Contains(m2, EpollHup);
    assert Contains(m1, EpollRdHup) <==> Contains(m2, EpollRdHup);
    assert Contains(m1, EpollExclusive) <==> Contains(m2, EpollExclusive);
    assert Contains(m1, EpollWakeup) <==> Contains(m2, EpollWakeup);
    assert Contains(m1, EpollOneShot) <==> Contains(m2, EpollOneShot);
    assert Contains(m1, EpollEt) <==> Contains(m2, EpollEt);
  }

  lemma {:induction false} MaskOfNamesOfNames(fs: seq<Flag>)
    ensures MaskOfNames(Names(fs)) == Some(MaskOf(fs))
  {
    if fs != [] {
      MaskOfNamesOfNames(fs[1..]);
      assert Names(fs)[1..] == Names(fs[1..]);
      FlagOfNameOfName(fs[0]);
    }
  }

  lemma PresentStep(m: bv32, fs: seq<Flag>, k: nat)
    requires k < |fs|
    ensures Present(m, fs[k..]) == Tested(m, fs[k]) + Present(m, fs[k + 1..])
  {
    assert fs[k..][1..] == fs[k + 1..];
  }

  /** The generic filter over `DisplayOrder` is the `Display` impl's fifteen
      consecutive `if self.contains(..)` tests. */
  lemma PresentUnrolled(m: bv32)
    ensures Present(m, DisplayOrder) ==
      Tested(m, EpollIn) + (Tested(m, EpollPri) + (Tested(m, EpollOut) +
      (Tested(m, EpollRdNorm) + (Tested(m, EpollRdBand) + (Tested(m, EpollWrNorm) +
      (Tested(m, EpollWrBand) + (Tested(m, EpollMsg) + (Tested(m, EpollErr) +
      (Tested(m, EpollHup) + (Tested(m, EpollRdHup) + (Tested(m, EpollExclusive) +
      (Tested(m, EpollWakeup) + (Tested(m, EpollOneShot) + Tested(m, EpollEt))))))))))))))
  {
    var d := DisplayOrder;
    assert d[0..] == d;
    assert Present(m, d[15..]) == [];
    PresentStep(m, d, 14);
    assert Present(m, d[14..]) == Tested(m, EpollEt);
    PresentStep(m, d, 13);
    PresentStep(m, d, 12);
    PresentStep(m, d, 11);
    PresentStep(m, d, 10);
    PresentStep(m, d, 9);
    PresentStep(m, d, 8);
    PresentStep(m, d, 7);
    PresentStep(m, d, 6);
    PresentStep(m, d, 5);
    PresentStep(m, d, 4);
    PresentStep(m, d, 3);
    PresentStep(m, d, 2);
    PresentStep(m, d, 1);
    PresentStep(m, d, 0);
  }

  /** `DeclaredMask` is exactly the union of the fifteen flag bits. */
  lemma DeclaredMaskIsUnion()
    ensures MaskOf(DisplayOrder) == DeclaredMask
  {
    DisplayOrderComplete();
    MaskOfDeclared(DisplayOrder);
    forall f | true
      ensures Contains(MaskOf(DisplayOrder), f) <==> Contains(DeclaredMask, f)
    {
      MaskOfContains(DisplayOrder, f);
    }
    MaskDeterminedByFlags(MaskOf(DisplayOrder), DeclaredMask);
  }

  lemma ContainsDeclared(m: bv32, f: Flag)
    ensures Contains(m & DeclaredMask, f) <==> Contains(m, f)
  {
  }

  /** The union of the present flags is the declared part of m. */
  lemma PresentMask(m: bv32)
    ensures MaskOf(Present(m, DisplayOrder)) == m & DeclaredMask
  {
    var p := Present(m, DisplayOrder);
    MaskOfDeclared(p);
    forall f | true
      ensures Contains(MaskOf(p), f) <==> Contains(m & DeclaredMask, f)
    {
      PresentMaskFlag(m, f);
    }
    MaskDeterminedByFlags(MaskOf(p), m & DeclaredMask);
  }

  lemma PresentMaskFlag(m: bv32, f: Flag)
    ensures Contains(MaskOf(Present(m, DisplayOrder)), f) <==> Contains(m & DeclaredMask, f)
  {
    var p := Present(m, DisplayOrder);
    MaskOfContains(p, f);
    PresentMembers(m, DisplayOrder);
    assert f in p <==> f in DisplayOrder && Contains(m, f);
    InDisplayOrder(f);
    ContainsDeclared(m, f);
  }

  lemma InDisplayOrder(f: Flag)
    ensures f in DisplayOrder
  {
    DisplayOrderComplete();
  }

  /** Reading the rendered names back recovers exactly the declared bits of m. */
  lemma FlagNamesRoundTrip(m: bv32)
    ensures MaskOfNames(FlagNames(m)) == Some(m & DeclaredMask)
  {
    MaskOfNamesOfNames(Present(m, DisplayOrder));
    PresentMask(m);
  }

  /** The joined rendering splits back into the list of names. */
  lemma RenderSplits(m: bv32)
    ensures SplitBar(Render(m), IsNameChar) == Some(FlagNames(m))
  {
    NamesWellFormed();
    SplitBarJoin(FlagNames(m), IsNameChar);
  }

  /** The rendering is empty exactly when m contains no declared flag. */
  lemma RenderEmpty(m: bv32)
    ensures Render(m) == "" <==> m & DeclaredMask == 0
  {
    FlagNamesRoundTrip(m);
    NamesWellFormed();
    if FlagNames(m) != [] {
      assert |FlagNames(m)[0]| > 0;
      if |FlagNames(m)| > 1 {
        assert |Render(m)| >= |FlagNames(m)[0]|;
      }
    }
  }

  /** The rendering never contains the characters that frame it in an event. */
  lemma RenderLacksBraces(m: bv32)
    ensures AllOf(Render(m), NotCloseBrace) && AllOf(Render(m), NotCloseParen)
  {
    NamesWellFormed();
    var names := FlagNames(m);
    forall j | 0 <= j < |names|
      ensures AllOf(names[j], NotCloseBrace) && AllOf(names[j], NotCloseParen)
    {
      assert AllOf(names[j], IsNameChar);
    }
    JoinAllOf(names, Bar, NotCloseBrace);
    JoinAllOf(names, Bar, NotCloseParen);
  }

  /** Zero, and an all-ones value (which has undeclared bits), both decode to
      the empty set and render as nothing. */
  lemma FromBitsEmptyExamples()
    ensures FromBits(0) == 0 && FlagNames(FromBits(0)) == [] && Render(FromBits(0)) == ""
    ensures FromBits(0xFFFF_FFFF) == 0 && FlagNames(FromBits(0xFFFF_FFFF)) == []
  {
    PresentUnrolled(0);
    assert Tested(0, EpollIn) == [];
    assert Tested(0, EpollPri) == [];
    assert Tested(0, EpollOut) == [];
    assert Tested(0, EpollRdNorm) == [];
    assert Tested(0, EpollRdBand) == [];
    assert Tested(0, EpollWrNorm) == [];
    assert Tested(0, EpollWrBand) == [];
    assert Tested(0, EpollMsg) == [];
    assert Tested(0, EpollErr) == [];
    assert Tested(0, EpollHup) == [];
    assert Tested(0, EpollRdHup) == [];
    assert Tested(0, EpollExclusive) == [];
    assert Tested(0, EpollWakeup) == [];
    assert Tested(0, EpollOneShot) == [];
    assert Tested(0, EpollEt) == [];
  }

  /** A single flag renders as its bare name. */
  lemma FromBitsSingleExample()
    ensures FlagNames(FromBits(0x001)) == ["EPOLLIN"]
  {
    FromBitsOfOne();
    PresentOfOne();
  }

  lemma FromBitsOfOne()
    ensures FromBits(1) == 1
  {
  }

  lemma PresentOfOne()
    ensures Present(1, DisplayOrder) == [EpollIn]
  {
    PresentUnrolled(1);
    assert Tested(1, EpollIn) == [EpollIn];
    assert Tested(1, EpollPri) == [];
    assert Tested(1, EpollOut) == [];
    assert Tested(1, EpollRdNorm) == [];
    assert Tested(1, EpollRdBand) == [];
    assert Tested(1, EpollWrNorm) == [];
    assert Tested(1, EpollWrBand) == [];
    assert Tested(1, EpollMsg) == [];
    assert Tested(1, EpollErr) == [];
    assert Tested(1, EpollHup) == [];
    assert Tested(1, EpollRdHup) == [];
    assert Tested(1, EpollExclusive) == [];
    assert Tested(1, EpollWakeup) == [];
    assert Tested(1, EpollOneShot) == [];
    assert Tested(1, EpollEt) == [];
  }

  lemma FromBitsPairExample()
    ensures FlagNames(FromBits(0x001 + 0x004)) == ["EPOLLIN", "EPOLLOUT"]
  {
    FromBitsOfFive();
    PresentOfFive();
  }

  lemma FromBitsOfFive()
    ensures FromBits(5) == 5
  {
  }

  lemma PresentOfFive()
    ensures Present(5, DisplayOrder) == [EpollIn, EpollOut]
  {
    PresentUnrolled(5);
    assert Tested(5, EpollIn) == [EpollIn];
    assert Tested(5, EpollPri) == [];
    assert Tested(5, EpollOut) == [EpollOut];
    assert Tested(5, EpollRdNorm) == [];
    assert Tested(5, EpollRdBand) == [];
    assert Tested(5, EpollWrNorm) == [];
    assert Tested(5, EpollWrBand) == [];
    assert Tested(5, EpollMsg) == [];
    assert Tested(5, EpollErr) == [];
    assert Tested(5, EpollHup) == [];
    assert Tested(5, EpollRdHup) == [];
    assert Tested(5, EpollExclusive) == [];
    assert Tested(5, EpollWakeup) == [];
    assert Tested(5, EpollOneShot) == [];
    assert Tested(5, EpollEt) == [];
    assert Present(5, DisplayOrder) == [EpollIn, EpollOut];
  }

  /** The declared mask renders every name once, in display order. */
  lemma FromBitsAllExample()
    ensures FlagNames(FromBits(0xF000_27DF)) == Names(DisplayOrder)
  {
    assert FromBits(0xF000_27DF) == 0xF000_27DF;
    PresentOfAll();
  }

  /** When m contains every flag of fs, all of them are present. */
  lemma {:induction false} PresentWhenAllContained(m: bv32, fs: seq<Flag>)
    requires forall f :: f in fs ==> Contains(m, f)
    ensures Present(m, fs) == fs
  {
    if fs != [] {
      PresentWhenAllContained(m, fs[1..]);
      assert fs == [fs[0]] + fs[1..];
    }
  }

  lemma PresentOfAll()
    ensures Present(0xF000_27DF, DisplayOrder) == DisplayOrder
  {
    PresentWhenAllContained(0xF000_27DF, DisplayOrder);
  }
}
