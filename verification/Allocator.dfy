/** protocol::NetGuidAllocator: one block of 256 NetGUIDs a player, never reused. */
module Allocator {
  import opened Bits

  type Key = string

  const DYNAMIC_BASE: nat := 0x0100_0000
  const BLOCK_SIZE: nat := 256

  /** Slots repeat modulo this, because the base address is 64 bits wide. */
  const SLOT_CYCLE: nat := 0x100_0000_0000_0000

  /** The slots from here to the end of a cycle have no block above the base. */
  const SLOT_LIMIT: nat := SLOT_CYCLE - 0x1_0000 - 1

  datatype Block = Block(base: nat, playerController: nat, pawn: nat, playerState: nat, ability: nat,
                         stats: nat, alignment: nat, combat: nat, characterInfo: nat, interactInfo: nat)

  const NO_BLOCK: Block := Block(0, 0, 0, 0, 0, 0, 0, 0, 0, 0)

  predicate IsValid(b: Block) { b.base != 0 }

  function Base(slot: nat): nat
  {
    (DYNAMIC_BASE + slot * BLOCK_SIZE) % U64
  }

  /** Whether the overflow test of the allocator refuses a slot. */
  predicate Refused(slot: nat)
  {
    (Base(slot) + BLOCK_SIZE) % U64 < Base(slot)
  }

  function BlockAt(base: nat): Block
  {
    Block(base, base, base + 2, base + 4, base + 6, base + 8, base + 10, base + 12, base + 14, base + 16)
  }

  function BlockFor(slot: nat): Block
  {
    if Refused(slot) then NO_BLOCK else BlockAt(Base(slot))
  }

  function Guids(b: Block): seq<nat>
  {
    [b.playerController, b.pawn, b.playerState, b.ability, b.stats, b.alignment, b.combat,
     b.characterInfo, b.interactInfo]
  }

  predicate Covers(b: Block, g: nat) { b.base <= g < b.base + BLOCK_SIZE }

  predicate Disjoint(a: Block, b: Block)
  {
    a.base + BLOCK_SIZE <= b.base || b.base + BLOCK_SIZE <= a.base
  }

  lemma BaseInCycle(slot: nat)
    ensures var r := slot % SLOT_CYCLE;
            Base(slot) == if r <= SLOT_LIMIT then DYNAMIC_BASE + r * BLOCK_SIZE
                          else DYNAMIC_BASE + r * BLOCK_SIZE - U64
  {
    var q, r := slot / SLOT_CYCLE, slot % SLOT_CYCLE;
    assert slot == SLOT_CYCLE * q + r;
    var low := DYNAMIC_BASE + r * BLOCK_SIZE;
    assert DYNAMIC_BASE + slot * BLOCK_SIZE == U64 * q + low;
    if r <= SLOT_LIMIT {
      DivUnique(U64 * q + low, U64, q, low);
    } else {
      DivUnique(U64 * q + low, U64, q + 1, low - U64);
    }
  }

  /** The allocator hands out a block at or above the dynamic base exactly when the
      slot, within its cycle, is below the limit: its overflow test alone refuses one
      slot in a cycle and then lets the base wrap around. */
  lemma AboveBaseExactly(slot: nat)
    ensures BlockFor(slot).base >= DYNAMIC_BASE <==> slot % SLOT_CYCLE < SLOT_LIMIT
    ensures Refused(slot) <==> slot % SLOT_CYCLE == SLOT_LIMIT
    ensures !IsValid(BlockFor(slot)) <==> slot % SLOT_CYCLE == SLOT_LIMIT || slot % SLOT_CYCLE == SLOT_LIMIT + 1
  {
    BaseInCycle(slot);
    var b := Base(slot);
    assert 0 <= b <= U64 - BLOCK_SIZE;
    if slot % SLOT_CYCLE == SLOT_LIMIT {
      assert b + BLOCK_SIZE == U64;
    } else {
      assert b + BLOCK_SIZE < U64;
      DivUnique(b + BLOCK_SIZE, U64, 0, b + BLOCK_SIZE);
    }
  }

  /** The nine GUIDs of a block are distinct, even and inside it. */
  lemma GuidsInside(slot: nat)
    requires slot % SLOT_CYCLE < SLOT_LIMIT
    ensures |Guids(BlockFor(slot))| == 9
    ensures forall i: nat :: i < 9 ==>
      Guids(BlockFor(slot))[i] % 2 == 0 && Covers(BlockFor(slot), Guids(BlockFor(slot))[i])
    ensures forall i: nat, j: nat :: i < j < 9 ==> Guids(BlockFor(slot))[i] != Guids(BlockFor(slot))[j]
  {
    hide BlockFor, Base, Guids, BlockAt;
    BlockBelowLimit(slot);
    GuidsOf(Base(slot));
  }

  lemma BlockBelowLimit(slot: nat)
    requires slot % SLOT_CYCLE < SLOT_LIMIT
    ensures BlockFor(slot) == BlockAt(Base(slot)) && Base(slot) % 2 == 0
  {
    AboveBaseExactly(slot);
    assert Base(slot) % 2 == 0 by {
      hide Base, Refused;
      BaseInCycle(slot);
      EvenBase(slot % SLOT_CYCLE);
    }
  }

  lemma EvenBase(r: nat)
    ensures (DYNAMIC_BASE + r * BLOCK_SIZE) % 2 == 0
  {
    var half: nat := 0x80_0000 + 128 * r;
    assert DYNAMIC_BASE + r * BLOCK_SIZE == 2 * half + 0;
    DivUnique(2 * half, 2, half, 0);
  }

  lemma GuidsOf(base: nat)
    ensures BlockAt(base).base == base && |Guids(BlockAt(base))| == 9
    ensures forall i: nat :: i < 9 ==> Guids(BlockAt(base))[i] == base + 2 * i
  {}

  /** Two slots below the limit own disjoint blocks exactly when they differ modulo
      the cycle. */
  lemma DisjointExactly(a: nat, b: nat)
    requires a % SLOT_CYCLE < SLOT_LIMIT && b % SLOT_CYCLE < SLOT_LIMIT
    ensures Disjoint(BlockFor(a), BlockFor(b)) <==> a % SLOT_CYCLE != b % SLOT_CYCLE
  {
    AboveBaseExactly(a);
    AboveBaseExactly(b);
    BaseInCycle(a);
    BaseInCycle(b);
  }

  // ---- One allocator, called one call at a time -------------------------------------------

  datatype Alloc = Alloc(nextSlot: nat, blocks: map<Key, Block>)

  function Allocated(a: Alloc, key: Key): Alloc
  {
    Alloc((a.nextSlot + 1) % U64, if Refused(a.nextSlot) then a.blocks else a.blocks[key := BlockFor(a.nextSlot)])
  }

  function Released(a: Alloc, key: Key): Alloc
  {
    a.(blocks := a.blocks - {key})
  }

  class NetGuidAllocator {
    var nextSlot: nat
    var playerToBlock: map<Key, Block>

    constructor ()
      ensures Abs() == Alloc(0, map[])
    {
      nextSlot := 0;
      playerToBlock := map[];
    }

    function Abs(): Alloc
      reads this
    {
      Alloc(nextSlot, playerToBlock)
    }

    method AllocatePlayerBlock(key: Key) returns (block: Block)
      modifies this
      ensures Abs() == Allocated(old(Abs()), key) && block == BlockFor(old(nextSlot))
    {
      var slot := nextSlot;
      nextSlot := (nextSlot + 1) % U64;
      var base := (DYNAMIC_BASE + slot * BLOCK_SIZE) % U64;
      if (base + BLOCK_SIZE) % U64 < base { return NO_BLOCK; }
      block := Block(base, base + 0, base + 2, base + 4, base + 6, base + 8, base + 10, base + 12,
                     base + 14, base + 16);
      playerToBlock := playerToBlock[key := block];
    }

    method GetBlock(key: Key) returns (block: Block)
      ensures block == if key in playerToBlock then playerToBlock[key] else NO_BLOCK
    {
      if key !in playerToBlock { return NO_BLOCK; }
      block := playerToBlock[key];
    }

    method ReleasePlayerBlock(key: Key)
      modifies this
      ensures Abs() == Released(old(Abs()), key)
    {
      if key !in playerToBlock {
        assert playerToBlock - {key} == playerToBlock;
        return;
      }
      playerToBlock := playerToBlock - {key};
    }
  }

  // ---- Many threads: the slot is fetched atomically, the map updated later under a lock -----

  /** A thread between its fetch and its insertion. */
  datatype Pending = Pending(key: Key, slot: nat)

  /** The shared state, and the slots that were ever fetched, oldest first. */
  datatype Shared = Shared(nextSlot: nat, live: map<Key, nat>, pending: map<nat, Pending>, issued: seq<nat>)

  datatype Step = Fetch(thread: nat, key: Key) | Insert(thread: nat) | Release(key: Key)

  const FRESH: Shared := Shared(0, map[], map[], [])

  function Next(s: Shared, step: Step): Shared
  {
    match step
    case Fetch(t, key) =>
      if t in s.pending then s
      else Shared((s.nextSlot + 1) % U64, s.live, s.pending[t := Pending(key, s.nextSlot)], s.issued + [s.nextSlot])
    case Insert(t) =>
      if t !in s.pending then s
      else
        var p := s.pending[t];
        s.(live := if Refused(p.slot) then s.live else s.live[p.key := p.slot], pending := s.pending - {t})
    case Release(key) => s.(live := s.live - {key})
  }

  function RunSteps(steps: seq<Step>): Shared
    decreases |steps|
  {
    if |steps| == 0 then FRESH else Next(RunSteps(steps[..|steps| - 1]), steps[|steps| - 1])
  }

  /** Every fetched slot is its own number; what is live or pending was fetched, and
      no slot is held twice. */
  ghost predicate Consistent(s: Shared)
  {
    && s.nextSlot == |s.issued|
    && (forall i: nat :: i < |s.issued| ==> s.issued[i] == i)
    && (forall k :: k in s.live ==> s.live[k] < |s.issued|)
    && (forall t :: t in s.pending ==> s.pending[t].slot < |s.issued|)
    && (forall k, l :: k in s.live && l in s.live && k != l ==> s.live[k] != s.live[l])
    && (forall t, u :: t in s.pending && u in s.pending && t != u ==> s.pending[t].slot != s.pending[u].slot)
    && (forall k, t :: k in s.live && t in s.pending ==> s.live[k] != s.pending[t].slot)
  }

  lemma NextConsistent(s: Shared, step: Step)
    requires Consistent(s) && |Next(s, step).issued| < U64
    ensures Consistent(Next(s, step))
  {
    hide Consistent, Next;
    match step
    case Fetch(t, key) => FetchConsistent(s, t, key);
    case Insert(t) => InsertConsistent(s, t);
    case Release(key) => ReleaseConsistent(s, key);
  }

  lemma FetchConsistent(s: Shared, t: nat, key: Key)
    requires Consistent(s) && |Next(s, Fetch(t, key)).issued| < U64
    ensures Consistent(Next(s, Fetch(t, key)))
  {
    if t !in s.pending { DivUnique(s.nextSlot + 1, U64, 0, s.nextSlot + 1); }
  }

  lemma InsertConsistent(s: Shared, t: nat)
    requires Consistent(s)
    ensures Consistent(Next(s, Insert(t)))
  {
    hide Refused;
  }

  lemma ReleaseConsistent(s: Shared, key: Key)
    requires Consistent(s)
    ensures Consistent(Next(s, Release(key)))
  {}

  lemma {:induction false} RunConsistent(steps: seq<Step>)
    requires |RunSteps(steps).issued| < U64
    ensures Consistent(RunSteps(steps))
    decreases |steps|
  {
    if |steps| > 0 {
      IssuedGrows(RunSteps(steps[..|steps| - 1]), steps[|steps| - 1]);
      RunConsistent(steps[..|steps| - 1]);
      NextConsistent(RunSteps(steps[..|steps| - 1]), steps[|steps| - 1]);
    }
  }

  lemma IssuedGrows(s: Shared, step: Step)
    ensures |s.issued| <= |Next(s, step).issued|
  {}

  /** Over every interleaving that fetches at most SLOT_LIMIT slots, all blocks ever
      issued, released or not, are pairwise disjoint and above the dynamic base, and
      what two keys hold at the same time are two of them. */
  lemma AllBlocksDisjoint(steps: seq<Step>)
    requires |RunSteps(steps).issued| <= SLOT_LIMIT
    ensures var s := RunSteps(steps);
            && (forall i: nat :: i < |s.issued| ==> BlockFor(s.issued[i]).base >= DYNAMIC_BASE)
            && (forall i: nat, j: nat :: i < j < |s.issued| ==> Disjoint(BlockFor(s.issued[i]), BlockFor(s.issued[j])))
            && (forall k, l :: k in s.live && l in s.live && k != l ==>
                  Disjoint(BlockFor(s.live[k]), BlockFor(s.live[l])))
  {
    hide BlockFor, Disjoint, RunSteps;
    RunConsistent(steps);
    var s := RunSteps(steps);
    forall i: nat | i < SLOT_LIMIT ensures i % SLOT_CYCLE == i { DivUnique(i, SLOT_CYCLE, 0, i); }
    forall i: nat | i < |s.issued| ensures BlockFor(s.issued[i]).base >= DYNAMIC_BASE { AboveBaseExactly(i); }
    forall i: nat, j: nat | i < j < |s.issued| ensures Disjoint(BlockFor(s.issued[i]), BlockFor(s.issued[j])) {
      DisjointExactly(i, j);
    }
    forall k, l | k in s.live && l in s.live && k != l ensures Disjoint(BlockFor(s.live[k]), BlockFor(s.live[l])) {
      DisjointExactly(s.live[k], s.live[l]);
    }
  }

  /** Over every interleaving whatever, the slots fetched are 0, 1, 2 and so on, modulo 2^64. */
  lemma {:induction false} IssuedAre(steps: seq<Step>)
    ensures var s := RunSteps(steps);
            s.nextSlot == |s.issued| % U64 && forall i: nat :: i < |s.issued| ==> s.issued[i] == i % U64
    decreases |steps|
  {
    if |steps| > 0 {
      var before := RunSteps(steps[..|steps| - 1]);
      IssuedAre(steps[..|steps| - 1]);
      WrapNext(|before.issued|);
    }
  }

  lemma WrapNext(n: nat)
    ensures (n % U64 + 1) % U64 == (n + 1) % U64
  {}

  /** And all blocks ever issued lie at or above the dynamic base if and only if at most
      SLOT_LIMIT slots were fetched. */
  lemma AllAboveBaseExactly(steps: seq<Step>)
    ensures var s := RunSteps(steps);
            (forall i: nat :: i < |s.issued| ==> BlockFor(s.issued[i]).base >= DYNAMIC_BASE)
            <==> |s.issued| <= SLOT_LIMIT
  {
    hide BlockFor, Disjoint, RunSteps;
    var s := RunSteps(steps);
    if |s.issued| <= SLOT_LIMIT {
      AllBlocksDisjoint(steps);
    } else {
      IssuedAre(steps);
      DivUnique(SLOT_LIMIT, U64, 0, SLOT_LIMIT);
      DivUnique(SLOT_LIMIT, SLOT_CYCLE, 0, SLOT_LIMIT);
      AboveBaseExactly(SLOT_LIMIT);
      assert !(BlockFor(s.issued[SLOT_LIMIT]).base >= DYNAMIC_BASE);
    }
  }
}
