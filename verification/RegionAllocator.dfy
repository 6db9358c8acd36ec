/** The lock-free region allocator: its address layout, and every interleaving of its bitmap scans, claims and
    releases (_attic_/RegionAllocator.cpp). */
module RegionAllocator {

  const REGION_COUNT: nat := 6

  function BlockSize(r: nat): nat { if r == 0 then 64 else 2 * BlockSize(r - 1) }

  function Blocks(r: nat): nat {
    if r == 0 then 8192 else if r == 1 then 4096 else if r == 2 then 2048 else if r == 3 then 1024
    else if r == 4 then 1024 else if r == 5 then 4096 else 0
  }

  /** bitmap_dwords */
  function Dwords(r: nat): nat { (Blocks(r) + 31) / 32 }

  function RegionBytes(r: nat): nat { Blocks(r) * BlockSize(r) }

  /** regions[r], or region_info[0] for r == REGION_COUNT. */
  function RegionBase(base: nat, r: nat): (a: nat)
    requires r <= REGION_COUNT
    ensures a >= base
  {
    if r == 0 then base else RegionBase(base, r - 1) + RegionBytes(r - 1)
  }

  // ---- Sizes ----

  /** The index of the highest set bit. */
  function BSR32(x: nat): (r: nat)
    requires x > 0
    ensures Power2(r) <= x < Power2(r + 1)
  {
    if x == 1 then 0 else BSR32(x / 2) + 1
  }

  function Power2(k: nat): nat { if k == 0 then 1 else 2 * Power2(k - 1) }

  /** The smallest region whose blocks are large enough. */
  function RegionFor(bytes: nat): nat
    requires 0 < bytes
  {
    var region := (bytes - 1) / 32;
    if region != 0 then BSR32(region) else region
  }

  lemma {:induction false} SizeIsPower(r: nat)
    ensures BlockSize(r) == 64 * Power2(r)
  {
    if r > 0 {
      SizeIsPower(r - 1);
    }
  }

  /** A request fits a block of its region, and of any later one; half of that region's block would be too small. */
  lemma RequestFits(bytes: nat, r: nat)
    requires 0 < bytes && RegionFor(bytes) <= r
    ensures bytes <= BlockSize(r)
    ensures RegionFor(bytes) > 0 ==> bytes > BlockSize(RegionFor(bytes) - 1)
  {
    var region := (bytes - 1) / 32;
    SizeIsPower(RegionFor(bytes));
    SizeGrows(RegionFor(bytes), r);
    if RegionFor(bytes) > 0 {
      SizeIsPower(RegionFor(bytes) - 1);
    }
  }

  lemma {:induction false} SizeGrows(r: nat, s: nat)
    requires r <= s
    ensures 0 < BlockSize(r) <= BlockSize(s)
  {
    if r < s {
      SizeGrows(r, s - 1);
    } else if r > 0 {
      SizeGrows(r - 1, r - 1);
    }
  }

  // ---- Addresses ----

  datatype Block = Block(region: nat, index: nat)

  predicate IsBlock(b: Block) { b.region < REGION_COUNT && b.index < Blocks(b.region) }

  function AddressOf(base: nat, b: Block): nat
    requires IsBlock(b)
  {
    RegionBase(base, b.region) + b.index * BlockSize(b.region)
  }

  /** The search of Release: the last region that does not begin after the address. */
  function FindRegion(base: nat, address: nat, r: nat): (found: int)
    requires r < REGION_COUNT
    ensures -1 <= found <= r
    ensures found >= 0 ==> RegionBase(base, found) <= address
    ensures forall i :: found < i <= r ==> address < RegionBase(base, i)
  {
    if address >= RegionBase(base, r) then r else if r == 0 then -1 else FindRegion(base, address, r - 1)
  }

  datatype Target = Null | Fallback | InRegion(block: Block)

  /** What Release makes of an address. */
  function ReleaseTarget(base: nat, address: nat): Target {
    if address == 0 then Null
    else if address >= RegionBase(base, REGION_COUNT) then Fallback
    else
      var r := FindRegion(base, address, REGION_COUNT - 1);
      if r < 0 then Fallback
      else
        SizeGrows(r, r);
        InRegion(Block(r, (address - RegionBase(base, r)) / BlockSize(r)))
  }

  lemma BaseGrows(base: nat, r: nat, s: nat)
    requires r < s <= REGION_COUNT
    ensures RegionBase(base, r) + RegionBytes(r) <= RegionBase(base, s)
  {
    hide RegionBytes;
    if r + 1 < s {
      BaseGrows(base, r, s - 1);
    }
  }

  lemma TimesLess(i: nat, n: nat, size: nat)
    requires i < n
    ensures i * size + size <= n * size
  {
    assert (i + 1) * size <= n * size;
  }

  /** A block lies inside its region. */
  lemma BlockInside(base: nat, b: Block)
    requires IsBlock(b)
    ensures RegionBase(base, b.region) <= AddressOf(base, b)
    ensures AddressOf(base, b) + BlockSize(b.region) <= RegionBase(base, b.region + 1)
  {
    TimesLess(b.index, Blocks(b.region), BlockSize(b.region));
    BaseGrows(base, b.region, b.region + 1);
  }

  /** Release finds exactly the block Acquire returned the address of. */
  lemma ReleaseFindsBlock(base: nat, b: Block)
    requires IsBlock(b) && base > 0
    ensures ReleaseTarget(base, AddressOf(base, b)) == InRegion(b)
  {
    hide RegionBytes, Blocks, BlockSize;
    var address := AddressOf(base, b);
    BlockInside(base, b);
    if b.region + 1 < REGION_COUNT {
      BaseGrows(base, b.region + 1, REGION_COUNT);
    }
    var r := FindRegion(base, address, REGION_COUNT - 1);
    forall i | b.region < i <= REGION_COUNT ensures address < RegionBase(base, i) {
      if i > b.region + 1 {
        BaseGrows(base, b.region + 1, i);
      }
      SizeGrows(b.region, b.region);
    }
    assert r == b.region;
    SizeGrows(r, r);
    DivideBack(b.index, BlockSize(b.region));
  }

  lemma DivideBack(i: nat, size: nat)
    requires size > 0
    ensures i * size / size == i
  {
    var q := i * size / size;
    assert i * size == q * size + i * size % size;
    if q < i {
      TimesLess(q, i, size);
    } else if q > i {
      TimesLess(i, q, size);
    }
  }

  /** Different blocks do not overlap. */
  lemma BlocksApart(base: nat, b: Block, c: Block)
    requires IsBlock(b) && IsBlock(c) && b != c
    ensures AddressOf(base, b) + BlockSize(b.region) <= AddressOf(base, c)
              || AddressOf(base, c) + BlockSize(c.region) <= AddressOf(base, b)
  {
    BlockInside(base, b);
    BlockInside(base, c);
    if b.region == c.region {
      if b.index < c.index {
        TimesLess(b.index, c.index, BlockSize(b.region));
      } else {
        TimesLess(c.index, b.index, BlockSize(b.region));
      }
    } else if b.region < c.region {
      if b.region + 1 < c.region { BaseGrows(base, b.region + 1, c.region); }
    } else {
      if c.region + 1 < b.region { BaseGrows(base, c.region + 1, b.region); }
    }
  }

  // ---- The protocol ----

  type Dword = w: seq<bool> | |w| == 32 witness seq(32, _ => false)

  /** Where a thread is in Acquire: index runs over the region's words from start; full lists the words this
      scan has read as full. */
  datatype Thread =
    | Idle
    | ReadStart(bytes: nat, region: nat)
    | ReadWord(bytes: nat, region: nat, start: nat, index: nat, full: set<nat>)
    | Claim(bytes: nat, region: nat, start: nat, index: nat, full: set<nat>, bit: nat)
    | StoreNext(bytes: nat, block: Block)

  /** The shared bitmaps and hints, the threads, and the blocks each thread holds. */
  datatype State = State(bitmap: seq<seq<Dword>>, next: seq<nat>, threads: seq<Thread>, held: seq<set<Block>>)

  function LowestClear(w: Dword, k: nat): (bit: nat)
    requires k <= 32 && exists i :: k <= i < 32 && !w[i]
    ensures k <= bit < 32 && !w[bit] && forall i :: k <= i < bit ==> w[i]
    decreases 32 - k
  {
    if !w[k] then k else LowestClear(w, k + 1)
  }

  predicate IsFull(w: Dword) { forall i :: 0 <= i < 32 ==> w[i] }

  function BlockAt(region: nat, index: nat, bit: nat): Block { Block(region, index * 32 + bit) }

  predicate Shape(s: State) {
    && |s.bitmap| == |s.next| == REGION_COUNT && |s.held| == |s.threads|
    && (forall r :: 0 <= r < REGION_COUNT ==> |s.bitmap[r]| == Dwords(r) && s.next[r] < Dwords(r))
  }

  predicate IsSet(s: State, b: Block)
    requires Shape(s) && IsBlock(b)
  {
    s.bitmap[b.region][b.index / 32][b.index % 32]
  }

  function SetBit(bitmap: seq<seq<Dword>>, b: Block, v: bool): seq<seq<Dword>>
    requires b.region < |bitmap| && b.index / 32 < |bitmap[b.region]|
  {
    var words := bitmap[b.region];
    bitmap[b.region := words[b.index / 32 := words[b.index / 32][b.index % 32 := v]]]
  }

  /** The thread's own position makes sense. */
  predicate ThreadOk(t: Thread) {
    match t
    case Idle => true
    case ReadStart(bytes, r) => 0 < bytes && RegionFor(bytes) <= r < REGION_COUNT
    case ReadWord(bytes, r, start, index, full) =>
      && 0 < bytes && RegionFor(bytes) <= r < REGION_COUNT && start < Dwords(r) && index < Dwords(r)
      && full == Scanned(start, index, Dwords(r))
    case Claim(bytes, r, start, index, full, bit) =>
      && 0 < bytes && RegionFor(bytes) <= r < REGION_COUNT && start < Dwords(r) && index < Dwords(r) && bit < 32
      && full == Scanned(start, index, Dwords(r))
    case StoreNext(bytes, b) => 0 < bytes && IsBlock(b) && RegionFor(bytes) <= b.region
  }

  function Between(lo: nat, hi: nat): (ws: set<nat>)
    ensures forall w :: w in ws <==> lo <= w < hi
  {
    if lo >= hi then {} else Between(lo, hi - 1) + {hi - 1}
  }

  /** The words from start up to index, going round. */
  function Scanned(start: nat, index: nat, n: nat): set<nat> {
    if index >= start then Between(start, index) else Between(start, n) + Between(0, index)
  }

  /** One step of thread k inside Acquire. */
  function StepOf(s: State, k: nat): State
    requires Shape(s) && k < |s.threads| && ThreadOk(s.threads[k])
  {
    match s.threads[k]
    case Idle => s
    case ReadStart(bytes, r) => Go(s, k, ReadWord(bytes, r, s.next[r], s.next[r], {}))
    case ReadWord(bytes, r, start, index, full) =>
      var w := s.bitmap[r][index];
      if !IsFull(w) then Go(s, k, Claim(bytes, r, start, index, full, LowestClear(w, 0)))
      else
        var index' := if index + 1 >= Dwords(r) then 0 else index + 1;
        if index' != start then Go(s, k, ReadWord(bytes, r, start, index', full + {index}))
        else if r + 1 < REGION_COUNT then Go(s, k, ReadStart(bytes, r + 1))
        else Go(s, k, Idle)
    case Claim(bytes, r, start, index, full, bit) =>
      var b := BlockAt(r, index, bit);
      BlockBits(r, index, bit);
      if s.bitmap[r][index][bit] then Go(s, k, ReadWord(bytes, r, start, index, full))
      else Go(s.(bitmap := SetBit(s.bitmap, b, true), held := s.held[k := s.held[k] + {b}]), k, StoreNext(bytes, b))
    case StoreNext(_, b) => BlockWord(b); Go(s.(next := s.next[b.region := b.index / 32]), k, Idle)
  }

  function Go(s: State, k: nat, t: Thread): State
    requires k < |s.threads|
  {
    s.(threads := s.threads[k := t])
  }

  lemma BlockBits(r: nat, index: nat, bit: nat)
    requires r < REGION_COUNT && index < Dwords(r) && bit < 32
    ensures IsBlock(BlockAt(r, index, bit)) && BlockAt(r, index, bit).index / 32 == index
    ensures BlockAt(r, index, bit).index % 32 == bit
  {
    assert Blocks(r) == 32 * Dwords(r);
  }

  lemma BlockWord(b: Block)
    requires IsBlock(b)
    ensures b.index / 32 < Dwords(b.region)
  {}

  /** Any thread may take its next step; an idle one may call Acquire, or release a block some thread holds. */
  ghost predicate Step(s: State, s': State) {
    exists k :: 0 <= k < |s.threads| && StepBy(s, s', k)
  }

  ghost predicate StepBy(s: State, s': State, k: nat)
    requires k < |s.threads|
  {
    && Shape(s) && ThreadOk(s.threads[k])
    && (|| (s.threads[k] != Idle && s' == StepOf(s, k))
        || (s.threads[k] == Idle && exists bytes: nat :: BeginsAcquire(s, s', k, bytes))
        || (s.threads[k] == Idle && exists j, b :: Releases(s, s', j, b)))
  }

  /** Acquire, of a size some region has blocks for. */
  ghost predicate BeginsAcquire(s: State, s': State, k: nat, bytes: nat)
    requires k < |s.threads|
  {
    0 < bytes && RegionFor(bytes) < REGION_COUNT && s' == Go(s, k, ReadStart(bytes, RegionFor(bytes)))
  }

  /** Release of a block that thread j holds: the test-and-reset of its bit. */
  ghost predicate Releases(s: State, s': State, j: nat, b: Block) {
    && Shape(s) && j < |s.threads| && b in s.held[j] && IsBlock(b) && b.index / 32 < Dwords(b.region)
    && s' == s.(bitmap := SetBit(s.bitmap, b, false), held := s.held[j := s.held[j] - {b}])
  }

  ghost predicate Init(s: State) {
    && Shape(s) && (forall k :: 0 <= k < |s.threads| ==> s.threads[k] == Idle && s.held[k] == {})
    && (forall r, w, i :: 0 <= r < REGION_COUNT && 0 <= w < Dwords(r) && 0 <= i < 32 ==> !s.bitmap[r][w][i])
  }

  /** A block's bit is set exactly when some thread holds it, and no block is held twice. */
  ghost predicate Inv(s: State) {
    && Shape(s)
    && (forall k :: 0 <= k < |s.threads| ==> ThreadOk(s.threads[k]))
    && (forall k, b :: 0 <= k < |s.held| && b in s.held[k] ==> IsBlock(b) && IsSet(s, b))
    && (forall b :: IsBlock(b) && IsSet(s, b) ==> exists k :: 0 <= k < |s.held| && b in s.held[k])
    && (forall j, k, b :: 0 <= j < k < |s.held| && b in s.held[j] ==> b !in s.held[k])
  }

  lemma BitSet(s: State, s': State, b: Block, c: Block, v: bool)
    requires Shape(s) && IsBlock(b) && IsBlock(c) && b.index / 32 < Dwords(b.region)
    requires s'.bitmap == SetBit(s.bitmap, b, v) && |s'.next| == REGION_COUNT && |s'.held| == |s'.threads|
    requires forall r :: 0 <= r < REGION_COUNT ==> s'.next[r] < Dwords(r)
    ensures Shape(s') && IsSet(s', c) == if c == b then v else IsSet(s, c)
  {
    assert b.index == 32 * (b.index / 32) + b.index % 32 && c.index == 32 * (c.index / 32) + c.index % 32;
  }

  lemma InitInv(s: State)
    requires Init(s)
    ensures Inv(s)
  {
    forall b | IsBlock(b) ensures !IsSet(s, b) {
      BlockWord(b);
    }
  }

  /** A step that only moves thread k on. */
  lemma GoKeeps(s: State, k: nat, t: Thread)
    requires Inv(s) && k < |s.threads| && ThreadOk(t)
    ensures Inv(Go(s, k, t))
  {
    hide ThreadOk;
    var s' := Go(s, k, t);
    assert forall b :: IsBlock(b) ==> IsSet(s', b) == IsSet(s, b);
  }

  /** Winning a bit nobody holds makes the thread its one holder. */
  lemma ClaimKeeps(s: State, k: nat, b: Block)
    requires Inv(s) && k < |s.threads| && IsBlock(b) && b.index / 32 < Dwords(b.region) && !IsSet(s, b)
    ensures Inv(s.(bitmap := SetBit(s.bitmap, b, true), held := s.held[k := s.held[k] + {b}]))
    ensures forall j :: 0 <= j < |s.held| ==> b !in s.held[j]
  {
    hide ThreadOk, SetBit, IsSet;
    var s' := s.(bitmap := SetBit(s.bitmap, b, true), held := s.held[k := s.held[k] + {b}]);
    forall c | IsBlock(c) ensures Shape(s') && IsSet(s', c) == if c == b then true else IsSet(s, c) {
      BitSet(s, s', b, c, true);
    }
    forall c | IsBlock(c) && IsSet(s', c) ensures exists j :: 0 <= j < |s'.held| && c in s'.held[j] {
      if c == b {
        assert b in s'.held[k];
      } else {
        var j :| 0 <= j < |s.held| && c in s.held[j];
        assert c in s'.held[j];
      }
    }
  }

  lemma ReleaseKeeps(s: State, s': State, j: nat, b: Block)
    requires Inv(s) && Releases(s, s', j, b)
    ensures Inv(s') && !IsSet(s', b) && forall c :: IsBlock(c) && c != b ==> IsSet(s', c) == IsSet(s, c)
  {
    hide ThreadOk, SetBit, IsSet;
    forall c | IsBlock(c) ensures Shape(s') && IsSet(s', c) == if c == b then false else IsSet(s, c) {
      BitSet(s, s', b, c, false);
    }
    forall c | IsBlock(c) && IsSet(s', c) ensures exists k :: 0 <= k < |s'.held| && c in s'.held[k] {
      var k :| 0 <= k < |s.held| && c in s.held[k];
      assert c in s'.held[k];
    }
    forall k, c | 0 <= k < |s'.held| && c in s'.held[k] ensures IsBlock(c) && IsSet(s', c) {
      assert c in s.held[k];
    }
  }

  lemma ScanNext(start: nat, index: nat, n: nat)
    requires start < n && index < n
    ensures var index' := if index + 1 >= n then 0 else index + 1;
            if index' == start then Scanned(start, index, n) + {index} == Between(0, n)
            else Scanned(start, index, n) + {index} == Scanned(start, index', n)
  {}

  /** Every step of every thread keeps the invariant. */
  lemma {:induction false} StepKeeps(s: State, k: nat)
    requires Inv(s) && k < |s.threads|
    ensures Inv(StepOf(s, k))
  {
    hide IsSet, SetBit, IsFull;
    match s.threads[k]
    case Idle =>
    case ReadStart(bytes, r) => GoKeeps(s, k, ReadWord(bytes, r, s.next[r], s.next[r], {}));
    case ReadWord(bytes, r, start, index, full) =>
      ScanNext(start, index, Dwords(r));
      WordStepKeeps(s, k);
    case Claim(bytes, r, start, index, full, bit) =>
      BlockBits(r, index, bit);
      if s.bitmap[r][index][bit] {
        GoKeeps(s, k, ReadWord(bytes, r, start, index, full));
      } else {
        var b := BlockAt(r, index, bit);
        IsSetIs(s, b);
        ClaimKeeps(s, k, b);
        GoKeeps(s.(bitmap := SetBit(s.bitmap, b, true), held := s.held[k := s.held[k] + {b}]), k, StoreNext(bytes, b));
      }
    case StoreNext(bytes, b) =>
      BlockWord(b);
      NextKeeps(s, b.region, b.index / 32);
      GoKeeps(s.(next := s.next[b.region := b.index / 32]), k, Idle);
  }

  lemma IsSetIs(s: State, b: Block)
    requires Shape(s) && IsBlock(b) && b.index / 32 < Dwords(b.region)
    ensures IsSet(s, b) == s.bitmap[b.region][b.index / 32][b.index % 32]
  {}

  lemma NextKeeps(s: State, r: nat, index: nat)
    requires Inv(s) && r < REGION_COUNT && index < Dwords(r)
    ensures Inv(s.(next := s.next[r := index]))
  {
    var s' := s.(next := s.next[r := index]);
    assert forall b :: IsBlock(b) ==> IsSet(s', b) == IsSet(s, b);
  }

  lemma WordStepKeeps(s: State, k: nat)
    requires Inv(s) && k < |s.threads| && s.threads[k].ReadWord?
    ensures Inv(StepOf(s, k))
  {
    hide IsSet, Scanned;
    var t := s.threads[k];
    var w := s.bitmap[t.region][t.index];
    ScanNext(t.start, t.index, Dwords(t.region));
    if !IsFull(w) {
      GoKeeps(s, k, Claim(t.bytes, t.region, t.start, t.index, t.full, LowestClear(w, 0)));
    } else {
      var index' := if t.index + 1 >= Dwords(t.region) then 0 else t.index + 1;
      if index' != t.start {
        GoKeeps(s, k, ReadWord(t.bytes, t.region, t.start, index', t.full + {t.index}));
      } else if t.region + 1 < REGION_COUNT {
        GoKeeps(s, k, ReadStart(t.bytes, t.region + 1));
      } else {
        GoKeeps(s, k, Idle);
      }
    }
  }

  lemma AnyStepKeeps(s: State, s': State, k: nat)
    requires Inv(s) && k < |s.threads| && StepBy(s, s', k)
    ensures Inv(s')
  {
    if s.threads[k] != Idle {
      StepKeeps(s, k);
    } else if bytes: nat :| BeginsAcquire(s, s', k, bytes) {
      GoKeeps(s, k, ReadStart(bytes, RegionFor(bytes)));
    } else {
      var j, b :| Releases(s, s', j, b);
      ReleaseKeeps(s, s', j, b);
    }
  }

  // ---- Whole runs ----

  ghost predicate Run(trace: seq<State>) {
    |trace| > 0 && Init(trace[0]) && forall i :: 0 <= i < |trace| - 1 ==> Step(trace[i], trace[i + 1])
  }

  lemma {:induction false} RunInv(trace: seq<State>, i: nat)
    requires Run(trace) && i < |trace|
    ensures Inv(trace[i])
  {
    hide Inv, StepBy;
    if i == 0 {
      InitInv(trace[0]);
    } else {
      RunInv(trace, i - 1);
      assert Step(trace[i - 1], trace[i - 1 + 1]);
      var k :| 0 <= k < |trace[i - 1].threads| && StepBy(trace[i - 1], trace[i], k);
      AnyStepKeeps(trace[i - 1], trace[i], k);
    }
  }

  /** In every state of every run, blocks held by different threads, or two blocks held by one, do not overlap
      in memory. */
  lemma NoSharedMemory(trace: seq<State>, i: nat, base: nat, j: nat, k: nat, b: Block, c: Block)
    requires Run(trace) && i < |trace| && j < |trace[i].held| && k < |trace[i].held|
    requires b in trace[i].held[j] && c in trace[i].held[k] && (j != k || b != c)
    ensures b != c && IsBlock(b) && IsBlock(c)
    ensures AddressOf(base, b) + BlockSize(b.region) <= AddressOf(base, c)
              || AddressOf(base, c) + BlockSize(c.region) <= AddressOf(base, b)
  {
    RunInv(trace, i);
    BlocksApart(base, b, c);
  }

  /** The step that wins a block takes one nobody held, large enough for the request, and sets only its bit. */
  lemma AcquireTakesFree(s: State, k: nat)
    requires Inv(s) && k < |s.threads| && s.threads[k].Claim? && StepOf(s, k).threads[k].StoreNext?
    ensures var b := StepOf(s, k).threads[k].block;
            && IsBlock(b) && s.threads[k].bytes <= BlockSize(b.region)
            && (forall j :: 0 <= j < |s.held| ==> b !in s.held[j]) && b in StepOf(s, k).held[k]
            && Shape(StepOf(s, k)) && forall c :: IsBlock(c) ==> IsSet(StepOf(s, k), c) == (c == b || IsSet(s, c))
  {
    hide SetBit, IsSet;
    var t := s.threads[k];
    BlockBits(t.region, t.index, t.bit);
    var b := BlockAt(t.region, t.index, t.bit);
    IsSetIs(s, b);
    ClaimKeeps(s, k, b);
    RequestFits(t.bytes, b.region);
    forall c | IsBlock(c)
      ensures Shape(StepOf(s, k)) && IsSet(StepOf(s, k), c) == if c == b then true else IsSet(s, c)
    {
      BitSet(s, StepOf(s, k), b, c, true);
    }
  }

  /** Releasing the address Acquire returned clears exactly the bit Acquire set. */
  lemma ReleaseClearsThatBit(s: State, s': State, base: nat, j: nat, b: Block)
    requires Inv(s) && Releases(s, s', j, b) && base > 0
    ensures ReleaseTarget(base, AddressOf(base, b)) == InRegion(b)
    ensures IsSet(s, b) && Inv(s') && !IsSet(s', b) && forall c :: IsBlock(c) && c != b ==> IsSet(s', c) == IsSet(s, c)
  {
    ReleaseFindsBlock(base, b);
    ReleaseKeeps(s, s', j, b);
  }

  /** A thread moves on to the next region, or gives up, only after reading every word of this one as full. */
  lemma MovesOnWhenFull(s: State, k: nat)
    requires Inv(s) && k < |s.threads| && s.threads[k].ReadWord?
    requires StepOf(s, k).threads[k].ReadStart? || StepOf(s, k).threads[k].Idle?
    ensures var t := s.threads[k];
            IsFull(s.bitmap[t.region][t.index]) && t.full + {t.index} == Between(0, Dwords(t.region))
  {
    var t := s.threads[k];
    assert ThreadOk(t);
    ScanNext(t.start, t.index, Dwords(t.region));
  }

  // ---- Whole calls ----

  /** Thread k begins Acquire(bytes) with the step from state a. */
  ghost predicate AcquireFrom(trace: seq<State>, a: nat, k: nat, bytes: nat) {
    && a + 1 < |trace| && k < |trace[a].threads| && trace[a].threads[k] == Idle
    && BeginsAcquire(trace[a], trace[a + 1], k, bytes)
  }

  /** From then on until state i it is in that call. */
  ghost predicate Busy(trace: seq<State>, a: nat, i: nat, k: nat) {
    a < i < |trace| && forall m :: a < m <= i ==> k < |trace[m].threads| && trace[m].threads[k] != Idle
  }

  /** The step from state j is thread k reading word w of region q, and the word is full. */
  ghost predicate SawFull(trace: seq<State>, j: nat, k: nat, q: nat, w: nat) {
    && j + 1 < |trace| && k < |trace[j].threads| && StepBy(trace[j], trace[j + 1], k)
    && trace[j].threads[k].ReadWord? && trace[j].threads[k].region == q && trace[j].threads[k].index == w
    && q < REGION_COUNT && w < Dwords(q) && IsFull(trace[j].bitmap[q][w])
  }

  ghost predicate WordSeen(trace: seq<State>, a: nat, i: nat, k: nat, q: nat, w: nat) {
    exists j :: a < j < i && SawFull(trace, j, k, q, w)
  }

  /** During its call, before state i, the thread has read every word of region q as full. */
  ghost predicate RegionSeen(trace: seq<State>, a: nat, i: nat, k: nat, q: nat) {
    forall w :: 0 <= w < Dwords(q) ==> WordSeen(trace, a, i, k, q, w)
  }

  /** And so of every region before r whose blocks are large enough. */
  ghost predicate EarlierSeen(trace: seq<State>, a: nat, i: nat, k: nat, bytes: nat, r: nat) {
    forall q: nat :: q < r && bytes <= BlockSize(q) ==> RegionSeen(trace, a, i, k, q)
  }

  /** The step from state j is thread k winning block b, which nobody held. */
  ghost predicate WonAt(trace: seq<State>, j: nat, k: nat, b: Block) {
    && j + 1 < |trace| && k < |trace[j].held| && k < |trace[j + 1].held|
    && (forall m :: 0 <= m < |trace[j].held| ==> b !in trace[j].held[m]) && b in trace[j + 1].held[k]
  }

  /** One step of a run: thread k's own, or one that leaves it where it is. */
  lemma OwnStep(trace: seq<State>, i: nat, k: nat)
    requires Run(trace) && i + 1 < |trace| && k < |trace[i].threads| && trace[i].threads[k] != Idle
    ensures Inv(trace[i]) && Inv(trace[i + 1]) && |trace[i + 1].threads| == |trace[i].threads|
    ensures ThreadOk(trace[i].threads[k]) && Shape(trace[i])
    ensures trace[i + 1].threads[k] == trace[i].threads[k] ||
            (trace[i + 1] == StepOf(trace[i], k) && StepBy(trace[i], trace[i + 1], k))
  {
    RunInv(trace, i);
    RunInv(trace, i + 1);
    var m :| 0 <= m < |trace[i].threads| && StepBy(trace[i], trace[i + 1], m);
    OthersStay(trace[i], trace[i + 1], m);
  }

  lemma OthersStay(s: State, s': State, m: nat)
    requires Inv(s) && m < |s.threads| && StepBy(s, s', m)
    ensures |s'.threads| == |s.threads| && forall k :: 0 <= k < |s.threads| && k != m ==> s'.threads[k] == s.threads[k]
  {
    hide SetBit, LowestClear, IsFull, IsSet;
  }

  /** Where a call is in its search. */
  ghost predicate Searching(trace: seq<State>, a: nat, i: nat, k: nat, bytes: nat)
    requires i < |trace| && k < |trace[i].threads|
  {
    match trace[i].threads[k]
    case Idle => false
    case ReadStart(size, r) => size == bytes && EarlierSeen(trace, a, i, k, bytes, r)
    case ReadWord(size, r, _, _, full) =>
      && size == bytes && EarlierSeen(trace, a, i, k, bytes, r)
      && forall w :: w in full ==> WordSeen(trace, a, i, k, r, w)
    case Claim(size, r, _, _, full, _) =>
      && size == bytes && EarlierSeen(trace, a, i, k, bytes, r)
      && forall w :: w in full ==> WordSeen(trace, a, i, k, r, w)
    case StoreNext(size, b) =>
      size == bytes && EarlierSeen(trace, a, i, k, bytes, b.region) && exists j :: a < j < i && WonAt(trace, j, k, b)
  }

  /** What has been seen stays so. */
  lemma SeenStays(trace: seq<State>, a: nat, i: nat, k: nat, bytes: nat)
    requires i + 1 < |trace| && k < |trace[i].threads|
    ensures forall q, w :: WordSeen(trace, a, i, k, q, w) ==> WordSeen(trace, a, i + 1, k, q, w)
    ensures forall r :: EarlierSeen(trace, a, i, k, bytes, r) ==> EarlierSeen(trace, a, i + 1, k, bytes, r)
  {
    hide SawFull;
    forall q, w | WordSeen(trace, a, i, k, q, w) ensures WordSeen(trace, a, i + 1, k, q, w) {
      var j :| a < j < i && SawFull(trace, j, k, q, w);
    }
    var i' := i + 1;
    forall r | EarlierSeen(trace, a, i, k, bytes, r) ensures EarlierSeen(trace, a, i', k, bytes, r) {
      forall q: nat | q < r && bytes <= BlockSize(q) ensures RegionSeen(trace, a, i', k, q) {
        assert RegionSeen(trace, a, i, k, q);
        forall w | 0 <= w < Dwords(q) ensures WordSeen(trace, a, i', k, q, w) {
          assert WordSeen(trace, a, i, k, q, w);
        }
      }
    }
  }

  /** Regions before the first one tried have blocks too small for the request. */
  lemma TooSmallBefore(trace: seq<State>, a: nat, i: nat, k: nat, bytes: nat)
    requires 0 < bytes
    ensures EarlierSeen(trace, a, i, k, bytes, RegionFor(bytes))
  {
    hide BlockSize, RegionFor;
    RequestFits(bytes, RegionFor(bytes));
    forall q: nat | q < RegionFor(bytes) ensures bytes > BlockSize(q) {
      SizeGrows(q, RegionFor(bytes) - 1);
    }
  }

  lemma {:induction false} SearchGoesOn(trace: seq<State>, a: nat, i: nat, k: nat, bytes: nat)
    requires Run(trace) && AcquireFrom(trace, a, k, bytes) && Busy(trace, a, i, k)
    ensures Searching(trace, a, i, k, bytes)
  {
    hide Run, EarlierSeen, WordSeen, WonAt, Inv, StepBy;
    if i == a + 1 {
      TooSmallBefore(trace, a, i, k, bytes);
    } else {
      SearchGoesOn(trace, a, i - 1, k, bytes);
      OwnStep(trace, i - 1, k);
      SeenStays(trace, a, i - 1, k, bytes);
      if trace[i].threads[k] == trace[i - 1].threads[k] {
        SearchStays(trace, a, i - 1, k, bytes);
      } else {
        SearchStep(trace, a, i - 1, k, bytes);
      }
    }
  }

  lemma SearchStays(trace: seq<State>, a: nat, i: nat, k: nat, bytes: nat)
    requires i + 1 < |trace| && k < |trace[i].threads| && Searching(trace, a, i, k, bytes)
    requires k < |trace[i + 1].threads| && trace[i + 1].threads[k] == trace[i].threads[k]
    ensures Searching(trace, a, i + 1, k, bytes)
  {
    hide EarlierSeen, WordSeen, WonAt;
    SeenStays(trace, a, i, k, bytes);
    if trace[i].threads[k].StoreNext? {
      var j :| a < j < i && WonAt(trace, j, k, trace[i].threads[k].block);
    }
  }

  lemma SearchStep(trace: seq<State>, a: nat, i: nat, k: nat, bytes: nat)
    requires a < i && i + 1 < |trace| && k < |trace[i].threads| && Searching(trace, a, i, k, bytes)
    requires Inv(trace[i]) && Shape(trace[i]) && ThreadOk(trace[i].threads[k])
    requires trace[i + 1] == StepOf(trace[i], k) && StepBy(trace[i], trace[i + 1], k)
    requires trace[i + 1].threads[k] != trace[i].threads[k] && trace[i + 1].threads[k] != Idle
    ensures Searching(trace, a, i + 1, k, bytes)
  {
    hide EarlierSeen, WordSeen, WonAt, Inv, StepBy, SetBit, IsFull, LowestClear;
    SeenStays(trace, a, i, k, bytes);
    var t, t' := trace[i].threads[k], trace[i + 1].threads[k];
    if t.ReadWord? && !t'.Claim? {
      WordRead(trace, a, i, k);
      if t'.ReadStart? {
        RegionDone(trace, a, i, k, bytes);
      }
    }
    if t'.StoreNext? {
      Wins(trace, i, k);
    }
  }

  // A full word has been read.
  lemma WordRead(trace: seq<State>, a: nat, i: nat, k: nat)
    requires a < i && i + 1 < |trace| && k < |trace[i].threads| && StepBy(trace[i], trace[i + 1], k)
    requires trace[i].threads[k].ReadWord? && trace[i + 1] == StepOf(trace[i], k) && !trace[i + 1].threads[k].Claim?
    ensures WordSeen(trace, a, i + 1, k, trace[i].threads[k].region, trace[i].threads[k].index)
  {
    hide IsFull, LowestClear;
    assert SawFull(trace, i, k, trace[i].threads[k].region, trace[i].threads[k].index);
  }

  // The scan has come back to its first word.
  lemma RegionDone(trace: seq<State>, a: nat, i: nat, k: nat, bytes: nat)
    requires i + 1 < |trace| && k < |trace[i].threads| && Searching(trace, a, i, k, bytes)
    requires Inv(trace[i]) && trace[i].threads[k].ReadWord? && trace[i + 1] == StepOf(trace[i], k)
    requires trace[i + 1].threads[k].ReadStart? || trace[i + 1].threads[k] == Idle
    requires WordSeen(trace, a, i + 1, k, trace[i].threads[k].region, trace[i].threads[k].index)
    ensures EarlierSeen(trace, a, i + 1, k, bytes, trace[i].threads[k].region + 1)
  {
    hide WordSeen, BlockSize;
    SeenStays(trace, a, i, k, bytes);
    MovesOnWhenFull(trace[i], k);
    var i', t := i + 1, trace[i].threads[k];
    forall w | 0 <= w < Dwords(t.region) ensures WordSeen(trace, a, i', k, t.region, w) {
      assert w in t.full + {t.index};
    }
  }

  lemma Wins(trace: seq<State>, i: nat, k: nat)
    requires i + 1 < |trace| && k < |trace[i].threads| && Inv(trace[i]) && trace[i + 1] == StepOf(trace[i], k)
    requires ThreadOk(trace[i].threads[k]) && trace[i].threads[k] != Idle && trace[i + 1].threads[k].StoreNext?
    ensures trace[i].threads[k].Claim? && WonAt(trace, i, k, trace[i + 1].threads[k].block)
    ensures trace[i + 1].threads[k].bytes == trace[i].threads[k].bytes
    ensures trace[i + 1].threads[k].block.region == trace[i].threads[k].region
  {
    hide SetBit, IsSet;
    AcquireTakesFree(trace[i], k);
  }

  /** First fit: a call wins a block only after reading, in that same call, every word of every earlier region with
      large enough blocks as full. */
  lemma WinsFirstFit(trace: seq<State>, a: nat, i: nat, k: nat, bytes: nat)
    requires Run(trace) && AcquireFrom(trace, a, k, bytes) && Busy(trace, a, i, k)
    requires i + 1 < |trace| && k < |trace[i + 1].threads|
    requires trace[i].threads[k].Claim? && trace[i + 1].threads[k].StoreNext?
    ensures var b := trace[i + 1].threads[k].block;
            && IsBlock(b) && bytes <= BlockSize(b.region) && WonAt(trace, i, k, b)
            && EarlierSeen(trace, a, i, k, bytes, b.region)
  {
    hide Run, EarlierSeen, WordSeen, WonAt, Inv, StepBy;
    SearchGoesOn(trace, a, i, k, bytes);
    OwnStep(trace, i, k);
    Wins(trace, i, k);
    AcquireTakesFree(trace[i], k);
  }

  /** A call ends with a block it has won, after which the next scan of its region starts at the block's word; or it
      gives up, after reading every word of every region with large enough blocks as full. */
  lemma EndsWithBlockOrAllFull(trace: seq<State>, a: nat, i: nat, k: nat, bytes: nat)
    requires Run(trace) && AcquireFrom(trace, a, k, bytes) && Busy(trace, a, i, k)
    requires i + 1 < |trace| && k < |trace[i + 1].threads| && trace[i + 1].threads[k] == Idle
    ensures EarlierSeen(trace, a, i + 1, k, bytes, REGION_COUNT) ||
            exists j, b :: a < j < i && WonAt(trace, j, k, b) && StartsAt(trace[i + 1], b)
  {
    hide Run, EarlierSeen, WordSeen, WonAt, Inv, StepBy;
    SearchGoesOn(trace, a, i, k, bytes);
    OwnStep(trace, i, k);
    var t := trace[i].threads[k];
    if t.StoreNext? {
      var j :| a < j < i && WonAt(trace, j, k, t.block);
      BlockWord(t.block);
      HintStored(trace[i], k);
    } else {
      GivesUp(trace[i], k);
      WordRead(trace, a, i, k);
      RegionDone(trace, a, i, k, bytes);
    }
  }

  ghost predicate StartsAt(s: State, b: Block) {
    IsBlock(b) && b.region < |s.next| && s.next[b.region] == b.index / 32
  }

  lemma HintStored(s: State, k: nat)
    requires Inv(s) && k < |s.threads| && s.threads[k].StoreNext?
    ensures StartsAt(StepOf(s, k), s.threads[k].block)
  {
    BlockWord(s.threads[k].block);
  }

  lemma GivesUp(s: State, k: nat)
    requires Inv(s) && k < |s.threads| && s.threads[k] != Idle && !s.threads[k].StoreNext?
    requires StepOf(s, k).threads[k] == Idle
    ensures s.threads[k].ReadWord? && s.threads[k].region + 1 == REGION_COUNT
  {
    hide SetBit, IsFull, LowestClear, IsSet;
  }
}
