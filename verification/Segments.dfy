/** Segment descriptors and the memory handed to forked processes (kernel/protect.c, kernel/proc.c,
    mm/forkexit.c, mm/main.c). Words are machine words: u32 arithmetic wraps, and `int` comparisons
    are on the signed reading of a word. */
module Segments {

  // ----- Descriptors

  /** `struct descriptor`. */
  datatype Descriptor = Descriptor(limitLow: bv16, baseLow: bv16, baseMid: bv8, attr1: bv8, limitHighAttr2: bv8, baseHigh: bv8)

  const DA_32: bv16 := 0x4000
  const DA_LIMIT_4K: bv16 := 0x8000
  const DA_C: bv16 := 0x98
  const DA_DRW: bv16 := 0x92
  const USER_DPL: bv16 := 0x60

  function InitDescriptor(base: bv32, limit: bv32, attribute: bv16): Descriptor {
    Descriptor((limit & 0xFFFF) as bv16, (base & 0xFFFF) as bv16, ((base >> 16) & 0xFF) as bv8, (attribute & 0xFF) as bv8,
               ((limit >> 16) & 0xF) as bv8 | ((attribute >> 8) & 0xF0) as bv8, ((base >> 24) & 0xFF) as bv8)
  }

  /** ldt_seg_linear and seg2phys. */
  function SegLinear(d: Descriptor): bv32 {
    ((d.baseHigh as bv32) << 24) | ((d.baseMid as bv32) << 16) | (d.baseLow as bv32)
  }

  function Reassembly(high: bv32, mid: bv32, low: bv32): bv32 {
    (high << 24) + (mid << 16) + low
  }

  /** How do_fork reads the base, the limit and the size of a segment. */
  function BaseOf(d: Descriptor): bv32 {
    Reassembly(d.baseHigh as bv32, d.baseMid as bv32, d.baseLow as bv32)
  }

  function LimitOf(d: Descriptor): bv32 {
    (((d.limitHighAttr2 & 0xF) as bv32) << 16) + (d.limitLow as bv32)
  }

  predicate Granular(d: Descriptor) {
    d.limitHighAttr2 & 0x80 != 0
  }

  function SizeOf(d: Descriptor): bv32 {
    if Granular(d) then (LimitOf(d) + 1) * 4096 else LimitOf(d) + 1
  }

  function Attribute(d: Descriptor): bv16 {
    (d.attr1 as bv16) | (((d.limitHighAttr2 & 0xF0) as bv16) << 8)
  }

  /** The eight bytes as the processor reads them, low byte first. */
  function Word(d: Descriptor): bv64 {
    (d.limitLow as bv64) | ((d.baseLow as bv64) << 16) | ((d.baseMid as bv64) << 32) | ((d.attr1 as bv64) << 40)
    | ((d.limitHighAttr2 as bv64) << 48) | ((d.baseHigh as bv64) << 56)
  }

  /** What was packed is what is decoded, by `|` or by `+`; of the limit the low 20 bits count. */
  lemma LinearRoundTrip(base: bv32, limit: bv32, attribute: bv16)
    ensures SegLinear(InitDescriptor(base, limit, attribute)) == base
  {
  }

  lemma BaseRoundTrip(base: bv32, limit: bv32, attribute: bv16)
    ensures BaseOf(InitDescriptor(base, limit, attribute)) == base
  {
  }

  lemma LimitRoundTrip(base: bv32, limit: bv32, attribute: bv16)
    ensures LimitOf(InitDescriptor(base, limit, attribute)) == limit & 0xFFFFF
  {
  }

  lemma AttributeRoundTrip(base: bv32, limit: bv32, attribute: bv16)
    ensures Attribute(InitDescriptor(base, limit, attribute)) == attribute & 0xF0FF
    ensures Granular(InitDescriptor(base, limit, attribute)) <==> attribute & DA_LIMIT_4K != 0
  {
  }

  /** Every descriptor is the packing of its own decoding. */
  lemma DescriptorIsPacked(d: Descriptor)
    ensures InitDescriptor(SegLinear(d), LimitOf(d), Attribute(d)) == d
  {
  }

  /** The layout of section 3.4.5 of the Intel SDM, Volume 3A: base in bits 16-39 and 56-63, limit in
      bits 0-15 and 48-51, the access byte in bits 40-47, AVL, L, D/B and G in bits 52-55. */
  lemma DescriptorLayout(base: bv32, limit: bv32, attribute: bv16)
    ensures var w := Word(InitDescriptor(base, limit, attribute));
            && ((w >> 16) & 0xFF_FFFF) | ((w >> 56) << 24) == base as bv64
            && (w & 0xFFFF) | ((w >> 32) & 0xF_0000) == (limit & 0xFFFFF) as bv64
            && (w >> 40) & 0xFF == (attribute & 0xFF) as bv64
            && (w >> 52) & 0xF == (attribute >> 12) as bv64
  {
  }

  // ----- Memory of forked processes

  /** a < b, both read as `int`. */
  predicate SLess(a: bv32, b: bv32) {
    if a < 0x8000_0000 then b < 0x8000_0000 && a < b else b < 0x8000_0000 || a < b
  }

  datatype Outcome = Granted(base: bv32) | Panic

  predicate Forked(pid: bv32) {
    9 <= pid < 37
  }

  /** The base alloc_mem computes for a slot: PROCS_BASE plus one image for each slot before. */
  function Place(pid: bv32): bv32 {
    0xA0_0000 + (pid - 9) * 0x10_0000
  }

  /** alloc_mem: the request must fit an image, and end below the memory size. */
  function AllocMem(pid: bv32, size: bv32, memorySize: bv32): Outcome {
    if SLess(0x10_0000, size) then Panic
    else if !SLess(Place(pid) + size, memorySize) then Panic
    else Granted(Place(pid))
  }

  /** Places of different slots do not overlap, and all lie between 10 MB and 38 MB. */
  lemma PlacesApart(a: bv32, b: bv32)
    requires Forked(a) && Forked(b)
    ensures 0xA0_0000 <= Place(a) <= 0x250_0000
    ensures a < b ==> Place(a) + 0x10_0000 <= Place(b)
  {
  }

  /** The code and the data segment of a process. */
  datatype Ldt = Ldt(code: Descriptor, data: Descriptor)

  /** The descriptors do_fork gives a child whose memory starts at `base`. */
  function ChildLdt(base: bv32): Ldt {
    Ldt(InitDescriptor(base, (0x10_0000 - 1) >> 12, DA_LIMIT_4K | DA_32 | DA_C | USER_DPL),
        InitDescriptor(base, (0x10_0000 - 1) >> 12, DA_LIMIT_4K | DA_32 | DA_DRW | USER_DPL))
  }

  lemma ChildSegment(base: bv32)
    ensures var l := ChildLdt(base); SegLinear(l.code) == base && SegLinear(l.data) == base
  {
    LinearRoundTrip(base, 0xFF, DA_LIMIT_4K | DA_32 | DA_C | USER_DPL);
    LinearRoundTrip(base, 0xFF, DA_LIMIT_4K | DA_32 | DA_DRW | USER_DPL);
  }

  lemma ChildSize(base: bv32)
    ensures var l := ChildLdt(base); SizeOf(l.code) == 0x10_0000 && SizeOf(l.data) == 0x10_0000
  {
  }

  lemma ChildLimits(base: bv32)
    ensures var l := ChildLdt(base); LimitOf(l.code) == 0xFF && LimitOf(l.data) == 0xFF
  {
  }

  /** The child's descriptors field by field: present user code and data segments of 32 bits, 256 pages
      from the base on. */
  lemma ChildFields(base: bv32)
    ensures var l := ChildLdt(base);
      && l.code.attr1 == 0xF8 && l.data.attr1 == 0xF2 && l.code.limitHighAttr2 == 0xC0 && l.data.limitHighAttr2 == 0xC0
      && l.code.limitLow == 0xFF && l.data.limitLow == 0xFF
  {
  }

  /** The limit counts pages or bytes, and one less than there are. */
  lemma SizeOfPacked(base: bv32, limit: bv32)
    ensures SizeOf(InitDescriptor(base, limit, 0x8000)) == ((limit & 0xF_FFFF) + 1) * 4096
    ensures SizeOf(InitDescriptor(base, limit, 0)) == (limit & 0xF_FFFF) + 1
  {
    LimitRoundTrip(base, limit, 0x8000);
    LimitRoundTrip(base, limit, 0);
    AttributeRoundTrip(base, limit, 0x8000);
    AttributeRoundTrip(base, limit, 0);
  }

  /** A request of more than an image is refused; another is granted exactly when it ends below the
      memory size, and then gets the place of its slot. */
  lemma AllocOutcome(pid: bv32, size: bv32, memorySize: bv32)
    requires 9 <= pid < 37 && memorySize < 0x8000_0000
    ensures 0x10_0000 < size < 0x8000_0000 ==> AllocMem(pid, size, memorySize).Panic?
    ensures size <= 0x10_0000 ==> (AllocMem(pid, size, memorySize).Granted? <==> Place(pid) + size < memorySize)
    ensures AllocMem(pid, size, memorySize).Granted? ==> AllocMem(pid, size, memorySize).base == Place(pid)
  {
    PlacesApart(pid, pid);
  }

  /** The segment ends below `bound`, without wrapping. */
  predicate Below(d: Descriptor, bound: bv32) {
    SizeOf(d) <= bound && SegLinear(d) <= bound - SizeOf(d)
  }

  /** No address lies in both segments. */
  predicate Apart(d: Descriptor, e: Descriptor) {
    Below(d, SegLinear(e)) || Below(e, SegLinear(d))
  }

  lemma GrantInside(pid: bv32, size: bv32, memorySize: bv32)
    requires Forked(pid) && AllocMem(pid, size, memorySize).Granted? && size == 0x10_0000
    ensures Inside(pid, memorySize)
  {
  }

  /** alloc_mem looks at the size of the caller, while the child gets a whole image. A grant puts the
      child inside memory, whatever the memory size, exactly for callers of a whole image (up to the
      last byte). */
  lemma WholeImagesFit(pid: bv32, size: bv32)
    requires Forked(pid) && size <= 0x10_0000
    ensures (forall m: bv32 :: AllocMem(pid, size, m).Granted? ==> Place(pid) + 0x10_0000 <= m) <==> size >= 0xF_FFFF
    ensures Whole(size) <==> size >= 0xF_FFFF
  {
    PlacesApart(pid, pid);
    if size < 0xF_FFFF {
      BarelyGranted(pid, size);
      assert AllocMem(pid, size, Place(pid) + size + 1).Granted?;
    } else {
      forall m: bv32 | AllocMem(pid, size, m).Granted? ensures Place(pid) + 0x10_0000 <= m {
        if size == 0x10_0000 {
          GrantInside(pid, size, m);
        } else {
          assert size == 0xF_FFFF;
          GrantInsideNarrowly(pid, m);
        }
      }
    }
  }

  lemma BarelyGranted(pid: bv32, size: bv32)
    requires Forked(pid) && size < 0xF_FFFF
    ensures AllocMem(pid, size, Place(pid) + size + 1).Granted? && Place(pid) + size + 1 < Place(pid) + 0x10_0000
  {
  }

  lemma GrantInsideNarrowly(pid: bv32, m: bv32)
    requires Forked(pid) && AllocMem(pid, 0xF_FFFF, m).Granted?
    ensures Place(pid) + 0x10_0000 <= m
  {
  }

  // ----- Runs

  datatype Event = Fork(parent: bv32, child: bv32) | Exit(pid: bv32)

  /** The two segments of a process are one and the same stretch of memory. */
  predicate Shared(l: Ldt) {
    BaseOf(l.code) == BaseOf(l.data) && LimitOf(l.code) == LimitOf(l.data) && SizeOf(l.code) == SizeOf(l.data)
  }

  lemma ChildShared(base: bv32)
    ensures Shared(ChildLdt(base))
  {
    ChildSize(base);
    ChildLimits(base);
    BaseRoundTrip(base, 0xFF, DA_LIMIT_4K | DA_32 | DA_C | USER_DPL);
    BaseRoundTrip(base, 0xFF, DA_LIMIT_4K | DA_32 | DA_DRW | USER_DPL);
  }

  /** The image of slot p ends inside memory. */
  predicate Inside(p: bv32, memorySize: bv32) {
    Place(p) + 0x10_0000 <= memorySize
  }

  /** Sizes of callers for which a grant means that the child fits (see WholeImagesFit). */
  predicate Whole(size: bv32) {
    0xF_FFFF <= size <= 0x10_0000
  }

  lemma WholeInside(pid: bv32, size: bv32, memorySize: bv32)
    requires Forked(pid) && Whole(size) && AllocMem(pid, size, memorySize).Granted?
    ensures Inside(pid, memorySize)
  {
    if size == 0x10_0000 {
      GrantInside(pid, size, memorySize);
    } else {
      assert size == 0xF_FFFF;
      GrantInsideNarrowly(pid, memorySize);
    }
  }

  /** Every key satisfies `ok`, and its value is `expected`. */
  ghost predicate Tracks<K(!new), V>(m: map<K, V>, ok: K -> bool, expected: K -> V) {
    forall p :: p in m ==> ok(p) && m[p] == expected(p)
  }

  lemma TracksMore<K(!new), V>(m: map<K, V>, ok: K -> bool, expected: K -> V, p: K)
    requires Tracks(m, ok, expected) && ok(p)
    ensures Tracks(m[p := expected(p)], ok, expected)
  {
  }

  lemma TracksFewer<K(!new), V>(m: map<K, V>, ok: K -> bool, expected: K -> V, p: K)
    requires Tracks(m, ok, expected)
    ensures Tracks(m - {p}, ok, expected)
  {
  }

  /** Every key outside `except` satisfies `ok`. */
  ghost predicate AllBut<K(!new), V>(m: map<K, V>, except: set<K>, ok: K -> bool) {
    forall p :: p in m && p !in except ==> ok(p)
  }

  lemma AllButMore<K(!new), V>(m: map<K, V>, except: set<K>, ok: K -> bool, p: K, v: V, good: bool)
    requires AllBut(m, except, ok) && (good ==> ok(p))
    ensures AllBut(m[p := v], if good then except - {p} else except + {p}, ok)
  {
  }

  lemma AllButFewer<K(!new), V>(m: map<K, V>, except: set<K>, ok: K -> bool, p: K)
    requires AllBut(m, except, ok)
    ensures AllBut(m - {p}, except - {p}, ok)
  {
  }

  function Fits(memorySize: bv32): bv32 -> bool {
    p => Inside(p, memorySize)
  }

  function ChildAt(p: bv32): Ldt {
    ChildLdt(Place(p))
  }

  function LdtOf(natives: map<bv32, Ldt>, children: map<bv32, Ldt>, p: bv32): Ldt
    requires p in natives || p in children
  {
    if p in children then children[p] else natives[p]
  }

  /** The check in do_fork that code and data share their memory never fails. */
  lemma CallerShared(natives: map<bv32, Ldt>, children: map<bv32, Ldt>, p: bv32)
    requires (forall p :: p in natives ==> Shared(natives[p])) && Tracks(children, Forked, ChildAt)
    requires p in natives || p in children
    ensures Shared(LdtOf(natives, children, p))
  {
    if p in children {
      ChildShared(Place(p));
    }
  }

  /** A forked process is a whole image. */
  lemma ForkedIsWhole(children: map<bv32, Ldt>, p: bv32)
    requires Tracks(children, Forked, ChildAt) && p in children
    ensures Whole(SizeOf(children[p].code))
  {
    ChildSize(Place(p));
  }

  /** The child of a forked process lies inside memory. */
  lemma GrandchildInside(children: map<bv32, Ldt>, p: bv32, child: bv32, memorySize: bv32)
    requires Tracks(children, Forked, ChildAt) && p in children && Forked(child)
    requires AllocMem(child, SizeOf(children[p].code), memorySize).Granted?
    ensures Inside(child, memorySize)
  {
    ForkedIsWhole(children, p);
    WholeInside(child, SizeOf(children[p].code), memorySize);
  }

  lemma GrantIsPlace(child: bv32, size: bv32, memorySize: bv32)
    requires AllocMem(child, size, memorySize).Granted?
    ensures AllocMem(child, size, memorySize).base == Place(child)
  {
  }

  /** The LDTs of the live forked processes, and those whose parent was smaller than an image. */
  datatype State = State(children: map<bv32, Ldt>, short: set<bv32>)

  predicate Possible(natives: map<bv32, Ldt>, s: State, e: Event) {
    e.Fork? ==> (e.parent in natives || e.parent in s.children) && Forked(e.child) && e.child !in s.children
  }

  function CallerSize(natives: map<bv32, Ldt>, s: State, p: bv32): bv32
    requires p in natives || p in s.children
  {
    SizeOf(LdtOf(natives, s.children, p).code)
  }

  predicate Panics(natives: map<bv32, Ldt>, memorySize: bv32, s: State, e: Event) {
    e.Fork? && Possible(natives, s, e) && AllocMem(e.child, CallerSize(natives, s, e.parent), memorySize).Panic?
  }

  function Born(s: State, child: bv32, whole: bool): State {
    State(s.children[child := ChildAt(child)], if whole then s.short - {child} else s.short + {child})
  }

  function Gone(s: State, p: bv32): State {
    State(s.children - {p}, s.short - {p})
  }

  /** One fork or exit; a fork by a slot that is not in use, or to a slot in use, does not happen, and
      a panic halts the system. */
  function StepOf(natives: map<bv32, Ldt>, memorySize: bv32, s: State, e: Event): State {
    if !Possible(natives, s, e) || Panics(natives, memorySize, s, e) then s
    else
      match e
      case Fork(p, c) => Born(s, c, Whole(CallerSize(natives, s, p)))
      case Exit(p) => Gone(s, p)
  }

  function Run(natives: map<bv32, Ldt>, memorySize: bv32, s: State, es: seq<Event>): State {
    if es == [] then s else StepOf(natives, memorySize, Run(natives, memorySize, s, es[..|es| - 1]), es[|es| - 1])
  }

  lemma RunNext(natives: map<bv32, Ldt>, memorySize: bv32, s: State, es: seq<Event>, k: nat)
    requires k < |es|
    ensures Run(natives, memorySize, s, es[..k + 1]) == StepOf(natives, memorySize, Run(natives, memorySize, s, es[..k]), es[k])
  {
    assert es[..k + 1][..k] == es[..k];
  }

  predicate AboveBase(l: Ldt) {
    SegLinear(l.code) >= 0xA0_0000 && SegLinear(l.data) >= 0xA0_0000
  }

  /** Neither segment of the one meets a segment of the other. */
  predicate LdtsApart(k: Ldt, l: Ldt) {
    Apart(k.code, l.code) && Apart(k.data, l.data) && Apart(k.code, l.data) && Apart(k.data, l.code)
  }

  lemma ChildAbove(a: bv32)
    requires Forked(a)
    ensures AboveBase(ChildAt(a))
  {
    PlacesApart(a, a);
    ChildSegment(Place(a));
  }

  /** Children hold the place of their own slot. */
  lemma ChildrenApart(a: bv32, b: bv32)
    requires Forked(a) && Forked(b) && a != b
    ensures LdtsApart(ChildAt(a), ChildAt(b))
  {
    PlacesApart(a, b);
    PlacesApart(b, a);
    ChildSegment(Place(a));
    ChildSegment(Place(b));
    ChildSize(Place(a));
    ChildSize(Place(b));
  }

  lemma Separate(children: map<bv32, Ldt>)
    requires Tracks(children, Forked, ChildAt)
    ensures forall a :: a in children ==> AboveBase(children[a])
    ensures forall a, b :: a in children && b in children && a != b ==> LdtsApart(children[a], children[b])
  {
    forall a | a in children ensures AboveBase(children[a]) {
      ChildAbove(a);
    }
    forall a, b | a in children && b in children && a != b ensures LdtsApart(children[a], children[b]) {
      ChildrenApart(a, b);
    }
  }

  /** The LDTs of the process table, as MM sees them. */
  class Memory {
    const memorySize: bv32
    /** Given at boot. */
    const natives: map<bv32, Ldt>
    /** Of the live forked processes. */
    var children: map<bv32, Ldt>
    /** The live children of callers smaller than an image. */
    ghost var short: set<bv32>

    ghost predicate Valid()
      reads this
    {
      && (forall p :: p in natives ==> Shared(natives[p])) && Tracks(children, Forked, ChildAt)
      && AllBut(children, short, Fits(memorySize))
    }

    ghost function Abstract(): State
      reads this
    {
      State(children, short)
    }

    /** The native processes get their descriptors at boot, code and data alike. */
    constructor (boot: map<bv32, Ldt>, size: bv32)
      requires forall p :: p in boot ==> Shared(boot[p])
      ensures Valid() && Abstract() == State(map[], {}) && natives == boot && memorySize == size
    {
      memorySize, natives, children, short := size, boot, map[], {};
    }

    /** The memory part of do_fork: the caller's segments are decoded and compared, a place for the
        child is asked for, and the child's descriptors are written. */
    method ForkSegments(pid: bv32, child: bv32) returns (r: Outcome)
      requires Valid() && (pid in natives || pid in children) && Forked(child)
      modifies this`children, this`short
      ensures Valid()
      ensures r == AllocMem(child, CallerSize(natives, old(Abstract()), pid), memorySize)
      ensures Abstract() == if r.Panic? then old(Abstract()) else Born(old(Abstract()), child, Whole(CallerSize(natives, old(Abstract()), pid)))
      ensures children == if r.Granted? then old(children)[child := ChildAt(child)] else old(children)
      ensures r.Granted? && pid in old(children) ==> Inside(child, memorySize)
    {
      var parent := LdtOf(natives, children, pid);
      CallerShared(natives, children, pid);
      assert Shared(parent);
      var size := SizeOf(parent.code);
      if pid in children {
        ForkedIsWhole(children, pid);
      }
      r := AllocMem(child, size, memorySize);
      if r.Granted? {
        Grant(child, size);
      }
    }

    method Grant(child: bv32, size: bv32)
      requires Valid() && Forked(child) && AllocMem(child, size, memorySize).Granted?
      modifies this`children, this`short
      ensures Valid() && Abstract() == Born(old(Abstract()), child, Whole(size))
      ensures Whole(size) ==> Inside(child, memorySize)
    {
      ghost var whole := Whole(size);
      if whole {
        WholeInside(child, size, memorySize);
      }
      GrantIsPlace(child, size, memorySize);
      TracksMore(children, Forked, ChildAt, child);
      AllButMore(children, short, Fits(memorySize), child, ChildAt(child), whole);
      children := children[child := ChildAt(child)];
      short := if whole then short - {child} else short + {child};
    }

    /** One event is the abstract step. */
    method Step(e: Event) returns (panicked: bool)
      requires Valid()
      modifies this`children, this`short
      ensures Valid() && (panicked <==> Panics(natives, memorySize, old(Abstract()), e))
      ensures Abstract() == StepOf(natives, memorySize, old(Abstract()), e)
    {
      match e
      case Fork(p, c) => panicked := ServeFork(p, c);
      case Exit(p) =>
        ServeExit(p);
        panicked := false;
    }

    method ServeFork(p: bv32, c: bv32) returns (panicked: bool)
      requires Valid()
      modifies this`children, this`short
      ensures Valid() && (panicked <==> Panics(natives, memorySize, old(Abstract()), Fork(p, c)))
      ensures Abstract() == StepOf(natives, memorySize, old(Abstract()), Fork(p, c))
      ensures (p in natives || p in old(children)) && 9 <= c < 37 && c !in old(children) && !panicked ==> children == old(children)[c := ChildAt(c)]
    {
      panicked := false;
      if (p in natives || p in children) && Forked(c) && c !in children {
        var r := ForkSegments(p, c);
        panicked := r.Panic?;
      }
    }

    method ServeExit(p: bv32)
      requires Valid()
      modifies this`children, this`short
      ensures Valid() && Abstract() == Gone(old(Abstract()), p) && children == old(children) - {p}
    {
      TracksFewer(children, Forked, ChildAt, p);
      AllButFewer(children, short, Fits(memorySize), p);
      children, short := children - {p}, short - {p};
    }

    /** Over every run, which ends early only at a panic: the segments of live children are apart from
        each other and above PROCS_BASE, and inside memory except for those forked by a process
        smaller than an image. */
    method Execute(events: seq<Event>) returns (ran: nat)
      requires Valid()
      modifies this`children, this`short
      ensures Valid() && ran <= |events| && Abstract() == Run(natives, memorySize, old(Abstract()), events[..ran])
      ensures ran < |events| ==> Panics(natives, memorySize, Abstract(), events[ran])
      ensures AllBut(children, short, Fits(memorySize))
      ensures forall a :: a in children ==> AboveBase(children[a])
      ensures forall a, b :: a in children && b in children && a != b ==> LdtsApart(children[a], children[b])
    {
      ran := 0;
      ghost var s := Abstract();
      while ran < |events|
        invariant ran <= |events| && Valid() && Abstract() == Run(natives, memorySize, s, events[..ran])
      {
        RunNext(natives, memorySize, s, events, ran);
        var panicked := Step(events[ran]);
        if panicked {
          break;
        }
        ran := ran + 1;
      }
      Separate(children);
    }
  }
}
