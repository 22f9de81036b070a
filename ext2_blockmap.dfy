/** The block-map walk shared by every variant of the engine: which data blocks
    the twelve direct slots, the single-indirect slot and the double-indirect
    slot of i_block name, in the order the walkers visit them, and why a walk
    ends. What a variant does with each block is a fold (Run) over that order. */
module BlockMap {
  import opened Ext2Image
  import opened Ext2Layout

  /** How a variant treats zeros in the block map.
      holes: a zero slot is not checked for and names block 0 (the sparse copy);
      zeroEntryEnds: a zero entry in a single-indirect block ends the whole walk
      (the path lookups) instead of only that pointer block. */
  datatype Policy = Policy(holes: bool, zeroEntryEnds: bool)

  /** Why a walk ended. Done is the end of a pointer block that was scanned to
      its last entry; a whole walk never ends with it. */
  datatype End =
    | ZeroSlot
    | Stopped
    | TripleSlot
    | ZeroEntry
    | ShortRead
    | Done

  datatype Scan = Scan(blocks: seq<nat>, end: End)

  /** The bs/4 little-endian 32-bit entries of pointer block b, or None when
      the image does not hold the whole block (the walkers check that read). */
  function PointerBlock(img: Image, bs: nat, b: nat): (r: Option<seq<nat>>)
    ensures r.None? <==> !FullRead(img, b * bs, bs)
    ensures r.Some? ==> |r.value| == bs / 4
    ensures r.Some? ==> forall j :: 0 <= j < bs / 4 ==> r.value[j] == U32(img, b * bs + 4 * j)
  {
    if !FullRead(img, b * bs, bs) then None
    else Some(seq<nat>(bs / 4, j requires 0 <= j < bs / 4 => U32(img, b * bs + 4 * j)))
  }

  /** Index of the first zero entry of p, or |p| when there is none. */
  function FirstZero(p: seq<nat>): (k: nat)
    ensures k <= |p|
    ensures forall j :: 0 <= j < k ==> p[j] != 0
    ensures k < |p| ==> p[k] == 0
  {
    if p == [] || p[0] == 0 then 0 else 1 + FirstZero(p[1..])
  }

  /** No zero block number at or after position k. */
  predicate NonZeroFrom(s: seq<nat>, k: nat)
  {
    forall t :: k <= t < |s| ==> s[t] != 0
  }

  /** One single-indirect block: its entries before the first zero follow acc. */
  function Indirect(img: Image, bs: nat, b: nat, zeroEntryEnds: bool, acc: seq<nat>): (r: Scan)
    ensures acc <= r.blocks
    ensures r.end == Done || r.end == ZeroEntry || r.end == ShortRead
    ensures r.end == ShortRead <==> !FullRead(img, b * bs, bs)
    ensures r.end == ZeroEntry ==> zeroEntryEnds
    ensures NonZeroFrom(r.blocks, |acc|)
  {
    match PointerBlock(img, bs, b)
    case None => Scan(acc, ShortRead)
    case Some(p) =>
      var k := FirstZero(p);
      NonZeroAppend(acc, p[..k]);
      Scan(acc + p[..k], if k < |p| && zeroEntryEnds then ZeroEntry else Done)
  }

  lemma NonZeroAppend(acc: seq<nat>, q: seq<nat>)
    requires forall j :: 0 <= j < |q| ==> q[j] != 0
    ensures NonZeroFrom(acc + q, |acc|)
  {
    forall t | |acc| <= t < |acc + q| ensures (acc + q)[t] != 0 {
      assert (acc + q)[t] == q[t - |acc|];
    }
  }

  /** A double-indirect block d from entry j on: every entry, zero or not, is
      scanned as a single-indirect block, until one of them ends the walk. */
  function DoubleFrom(img: Image, bs: nat, d: seq<nat>, j: nat, zeroEntryEnds: bool, acc: seq<nat>): (r: Scan)
    requires j <= |d|
    ensures acc <= r.blocks
    ensures r.end == Done || r.end == ZeroEntry || r.end == ShortRead
    ensures r.end == ZeroEntry ==> zeroEntryEnds
    ensures NonZeroFrom(r.blocks, |acc|)
    decreases |d| - j
  {
    if j == |d| then Scan(acc, Done)
    else
      var r := Indirect(img, bs, d[j], zeroEntryEnds, acc);
      if r.end == Done then DoubleFrom(img, bs, d, j + 1, zeroEntryEnds, r.blocks) else r
  }

  /** The double-indirect slot naming block b: its pointer block is read in
      full, then scanned from its first entry. */
  function Double(img: Image, bs: nat, b: nat, zeroEntryEnds: bool, acc: seq<nat>): (r: Scan)
    ensures acc <= r.blocks
    ensures r.end == Done || r.end == ZeroEntry || r.end == ShortRead
    ensures r.end == ZeroEntry ==> zeroEntryEnds
    ensures !FullRead(img, b * bs, bs) ==> r == Scan(acc, ShortRead)
    ensures NonZeroFrom(r.blocks, |acc|)
  {
    match PointerBlock(img, bs, b)
    case None => Scan(acc, ShortRead)
    case Some(d) => DoubleFrom(img, bs, d, 0, zeroEntryEnds, acc)
  }

  /** The walk over i_block from slot i on, acc holding the blocks visited
      before. Before each slot the walker ends on a zero slot (unless holes)
      and then on the caller's stop rule, which sees how many blocks were
      visited; slot 14 is never followed. */
  function SlotsFrom(img: Image, bs: nat, ib: seq<nat>, pol: Policy, stop: nat -> bool, i: nat, acc: seq<nat>): (r: Scan)
    requires |ib| == NBlocks && i <= TindBlock
    ensures acc <= r.blocks
    ensures r.end != Done
    ensures r.end == ZeroEntry ==> pol.zeroEntryEnds
    ensures r.end == ZeroSlot ==> !pol.holes
    decreases TindBlock - i
  {
    if !pol.holes && ib[i] == 0 then Scan(acc, ZeroSlot)
    else if stop(|acc|) then Scan(acc, Stopped)
    else if i < NDirBlocks then SlotsFrom(img, bs, ib, pol, stop, i + 1, acc + [ib[i]])
    else if i == IndBlock then
      var r := Indirect(img, bs, ib[i], pol.zeroEntryEnds, acc);
      if r.end == Done then SlotsFrom(img, bs, ib, pol, stop, i + 1, r.blocks) else r
    else if i == DindBlock then
      var r := Double(img, bs, ib[i], pol.zeroEntryEnds, acc);
      if r.end == Done then SlotsFrom(img, bs, ib, pol, stop, i + 1, r.blocks) else r
    else Scan(acc, TripleSlot)
  }

  /** The whole walk over an inode's i_block. */
  function Walk(img: Image, bs: nat, ib: seq<nat>, pol: Policy, stop: nat -> bool): Scan
    requires |ib| == NBlocks
  {
    SlotsFrom(img, bs, ib, pol, stop, 0, [])
  }

  /** The stop rule of the walkers that never stop early. */
  function NeverStop(): nat -> bool
  {
    k => false
  }

  // ---------------------------------------------------------------------------
  // Properties of the walk

  lemma {:induction false} SlotsFromNonZero(img: Image, bs: nat, ib: seq<nat>, pol: Policy, stop: nat -> bool, i: nat, acc: seq<nat>)
    requires |ib| == NBlocks && i <= TindBlock && !pol.holes
    ensures NonZeroFrom(SlotsFrom(img, bs, ib, pol, stop, i, acc).blocks, |acc|)
    decreases TindBlock - i
  {
    if ib[i] == 0 || stop(|acc|) || i == TindBlock {
    } else if i < NDirBlocks {
      var a := acc + [ib[i]];
      SlotsFromNonZero(img, bs, ib, pol, stop, i + 1, a);
      var r := SlotsFrom(img, bs, ib, pol, stop, i + 1, a);
      assert a <= r.blocks && r.blocks[|acc|] == a[|acc|] == ib[i];
    } else if i == IndBlock {
      var r := Indirect(img, bs, ib[i], pol.zeroEntryEnds, acc);
      if r.end == Done { SlotsFromNonZero(img, bs, ib, pol, stop, i + 1, r.blocks); }
    } else {
      var r := Double(img, bs, ib[i], pol.zeroEntryEnds, acc);
      if r.end == Done { SlotsFromNonZero(img, bs, ib, pol, stop, i + 1, r.blocks); }
    }
  }

  /** Without holes, every block the walk visits is a non-zero block number. */
  lemma WalkNonZero(img: Image, bs: nat, ib: seq<nat>, pol: Policy, stop: nat -> bool)
    requires |ib| == NBlocks && !pol.holes
    ensures NonZeroFrom(Walk(img, bs, ib, pol, stop).blocks, 0)
  {
    SlotsFromNonZero(img, bs, ib, pol, stop, 0, []);
  }

  lemma {:induction false} SlotsFromIgnoreTriple(img: Image, bs: nat, ib: seq<nat>, ib': seq<nat>, pol: Policy, stop: nat -> bool, i: nat, acc: seq<nat>)
    requires |ib| == NBlocks && |ib'| == NBlocks && i <= TindBlock
    requires ib[..TindBlock] == ib'[..TindBlock]
    requires (ib[TindBlock] == 0) == (ib'[TindBlock] == 0)
    ensures SlotsFrom(img, bs, ib, pol, stop, i, acc) == SlotsFrom(img, bs, ib', pol, stop, i, acc)
    decreases TindBlock - i
  {
    if i < TindBlock {
      assert ib[i] == ib[..TindBlock][i] == ib'[i];
      var a := acc + [ib[i]];
      SlotsFromIgnoreTriple(img, bs, ib, ib', pol, stop, i + 1, a);
      var r := Indirect(img, bs, ib[i], pol.zeroEntryEnds, acc);
      SlotsFromIgnoreTriple(img, bs, ib, ib', pol, stop, i + 1, r.blocks);
      var r2 := Double(img, bs, ib[i], pol.zeroEntryEnds, acc);
      SlotsFromIgnoreTriple(img, bs, ib, ib', pol, stop, i + 1, r2.blocks);
    }
  }

  /** Slot 14 (triple-indirect) is never followed: only whether it is zero can
      matter, never the block it names. */
  lemma WalkIgnoresTriple(img: Image, bs: nat, ib: seq<nat>, ib': seq<nat>, pol: Policy, stop: nat -> bool)
    requires |ib| == NBlocks && |ib'| == NBlocks
    requires ib[..TindBlock] == ib'[..TindBlock]
    requires (ib[TindBlock] == 0) == (ib'[TindBlock] == 0)
    ensures Walk(img, bs, ib, pol, stop) == Walk(img, bs, ib', pol, stop)
  {
    SlotsFromIgnoreTriple(img, bs, ib, ib', pol, stop, 0, []);
  }

  lemma {:induction false} SlotsFromZeroSlot(img: Image, bs: nat, ib: seq<nat>, ib': seq<nat>, pol: Policy, stop: nat -> bool, z: nat, i: nat, acc: seq<nat>)
    requires |ib| == NBlocks && |ib'| == NBlocks && i <= z <= TindBlock && !pol.holes
    requires ib[z] == 0 && ib[..z + 1] == ib'[..z + 1]
    ensures SlotsFrom(img, bs, ib, pol, stop, i, acc) == SlotsFrom(img, bs, ib', pol, stop, i, acc)
    decreases TindBlock - i
  {
    assert ib[i] == ib[..z + 1][i] == ib'[i];
    if i < z {
      var a := acc + [ib[i]];
      SlotsFromZeroSlot(img, bs, ib, ib', pol, stop, z, i + 1, a);
      var r := Indirect(img, bs, ib[i], pol.zeroEntryEnds, acc);
      SlotsFromZeroSlot(img, bs, ib, ib', pol, stop, z, i + 1, r.blocks);
      var r2 := Double(img, bs, ib[i], pol.zeroEntryEnds, acc);
      SlotsFromZeroSlot(img, bs, ib, ib', pol, stop, z, i + 1, r2.blocks);
    }
  }

  /** Without holes the walk ends at a zero slot: the slots after it are never
      looked at, and if the walk gets there it ends with ZeroSlot. */
  lemma WalkEndsAtZeroSlot(img: Image, bs: nat, ib: seq<nat>, ib': seq<nat>, pol: Policy, stop: nat -> bool, z: nat)
    requires |ib| == NBlocks && |ib'| == NBlocks && z <= TindBlock && !pol.holes
    requires ib[z] == 0 && ib[..z + 1] == ib'[..z + 1]
    ensures Walk(img, bs, ib, pol, stop) == Walk(img, bs, ib', pol, stop)
  {
    SlotsFromZeroSlot(img, bs, ib, ib', pol, stop, z, 0, []);
  }

  lemma {:induction false} SlotsFromDirect(img: Image, bs: nat, ib: seq<nat>, pol: Policy, stop: nat -> bool, i: nat, acc: seq<nat>, j: nat)
    requires |ib| == NBlocks && i <= j < NDirBlocks && |acc| == i
    requires forall t :: i <= t <= j ==> !stop(t)
    requires !pol.holes ==> forall t :: i <= t <= j ==> ib[t] != 0
    ensures var r := SlotsFrom(img, bs, ib, pol, stop, i, acc);
      |r.blocks| > j && r.blocks[j] == ib[j]
    decreases j - i
  {
    var a := acc + [ib[i]];
    if i < j {
      SlotsFromDirect(img, bs, ib, pol, stop, i + 1, a, j);
      var r := SlotsFrom(img, bs, ib, pol, stop, i + 1, a);
      assert r.blocks[j] == ib[j];
    } else {
      var r := SlotsFrom(img, bs, ib, pol, stop, i + 1, a);
      assert a <= r.blocks;
      assert r.blocks[j] == a[j];
    }
  }

  /** Direct slot j supplies the walk's j-th block whenever the walk is not
      stopped or ended by a zero slot before it; with holes, a zero slot is
      block 0 at its own position. */
  lemma WalkDirectSlot(img: Image, bs: nat, ib: seq<nat>, pol: Policy, stop: nat -> bool, j: nat)
    requires |ib| == NBlocks && j < NDirBlocks
    requires forall t :: 0 <= t <= j ==> !stop(t)
    requires !pol.holes ==> forall t :: 0 <= t <= j ==> ib[t] != 0
    ensures |Walk(img, bs, ib, pol, stop).blocks| > j && Walk(img, bs, ib, pol, stop).blocks[j] == ib[j]
  {
    SlotsFromDirect(img, bs, ib, pol, stop, 0, [], j);
  }

  lemma {:induction false} SlotsFromEarlierStop(img: Image, bs: nat, ib: seq<nat>, pol: Policy, stop: nat -> bool, stop': nat -> bool,
                                                i: nat, acc: seq<nat>)
    requires |ib| == NBlocks && i <= TindBlock
    requires forall k :: stop(k) ==> stop'(k)
    ensures var r, r' := SlotsFrom(img, bs, ib, pol, stop, i, acc), SlotsFrom(img, bs, ib, pol, stop', i, acc);
      r'.blocks <= r.blocks && (r'.end != Stopped ==> r' == r)
    decreases TindBlock - i
  {
    if !pol.holes && ib[i] == 0 {
    } else if stop'(|acc|) {
    } else if i < NDirBlocks {
      SlotsFromEarlierStop(img, bs, ib, pol, stop, stop', i + 1, acc + [ib[i]]);
    } else if i == IndBlock {
      var r := Indirect(img, bs, ib[i], pol.zeroEntryEnds, acc);
      if r.end == Done {
        SlotsFromEarlierStop(img, bs, ib, pol, stop, stop', i + 1, r.blocks);
      }
    } else if i == DindBlock {
      var r := Double(img, bs, ib[i], pol.zeroEntryEnds, acc);
      if r.end == Done {
        SlotsFromEarlierStop(img, bs, ib, pol, stop, stop', i + 1, r.blocks);
      }
    }
  }

  /** A walk whose stop rule holds whenever another's does visits a prefix of
      the other's blocks, and the same walk unless it ended by stopping. */
  lemma WalkEarlierStop(img: Image, bs: nat, ib: seq<nat>, pol: Policy, stop: nat -> bool, stop': nat -> bool)
    requires |ib| == NBlocks
    requires forall k :: stop(k) ==> stop'(k)
    ensures Walk(img, bs, ib, pol, stop').blocks <= Walk(img, bs, ib, pol, stop).blocks
    ensures Walk(img, bs, ib, pol, stop').end != Stopped ==> Walk(img, bs, ib, pol, stop') == Walk(img, bs, ib, pol, stop)
  {
    SlotsFromEarlierStop(img, bs, ib, pol, stop, stop', 0, []);
  }

  /** A pointer block's scan does not depend on what was visited before it. */
  lemma IndirectAcc(img: Image, bs: nat, b: nat, z: bool, acc: seq<nat>)
    ensures var r := Indirect(img, bs, b, z, []);
      Indirect(img, bs, b, z, acc) == Scan(acc + r.blocks, r.end)
  {
    match PointerBlock(img, bs, b)
    case None => assert acc + [] == acc;
    case Some(p) => assert [] + p[..FirstZero(p)] == p[..FirstZero(p)];
  }

  lemma {:induction false} DoubleFromAcc(img: Image, bs: nat, d: seq<nat>, j: nat, z: bool, acc: seq<nat>)
    requires j <= |d|
    ensures var r := DoubleFrom(img, bs, d, j, z, []);
      DoubleFrom(img, bs, d, j, z, acc) == Scan(acc + r.blocks, r.end)
    decreases |d| - j
  {
    if j == |d| {
      assert acc + [] == acc;
    } else {
      IndirectAcc(img, bs, d[j], z, acc);
      var r0 := Indirect(img, bs, d[j], z, []);
      if r0.end == Done {
        var rest := DoubleFrom(img, bs, d, j + 1, z, []);
        calc {
          DoubleFrom(img, bs, d, j, z, acc);
          DoubleFrom(img, bs, d, j + 1, z, acc + r0.blocks);
          { DoubleFromAcc(img, bs, d, j + 1, z, acc + r0.blocks); }
          Scan(acc + r0.blocks + rest.blocks, rest.end);
          { assert acc + r0.blocks + rest.blocks == acc + (r0.blocks + rest.blocks); }
          Scan(acc + (r0.blocks + rest.blocks), rest.end);
        }
        calc {
          DoubleFrom(img, bs, d, j, z, []);
          DoubleFrom(img, bs, d, j + 1, z, r0.blocks);
          { DoubleFromAcc(img, bs, d, j + 1, z, r0.blocks); }
          Scan(r0.blocks + rest.blocks, rest.end);
        }
      }
    }
  }

  lemma DoubleAcc(img: Image, bs: nat, b: nat, z: bool, acc: seq<nat>)
    ensures var r := Double(img, bs, b, z, []);
      Double(img, bs, b, z, acc) == Scan(acc + r.blocks, r.end)
  {
    match PointerBlock(img, bs, b)
    case None => assert acc + [] == acc;
    case Some(d) => DoubleFromAcc(img, bs, d, 0, z, acc);
  }

  /** What slot i contributes to the walk on its own: its block, or the scan
      of its pointer block. */
  function SlotScan(img: Image, bs: nat, ib: seq<nat>, pol: Policy, i: nat): Scan
    requires |ib| == NBlocks && i < TindBlock
  {
    if i < NDirBlocks then Scan([ib[i]], Done)
    else if i == IndBlock then Indirect(img, bs, ib[i], pol.zeroEntryEnds, [])
    else Double(img, bs, ib[i], pol.zeroEntryEnds, [])
  }

  /** A slot that is followed adds its own scan to the walk: the walk goes on
      past it when that scan ran to its end and otherwise ends with it. */
  lemma SlotsFromSlot(img: Image, bs: nat, ib: seq<nat>, pol: Policy, stop: nat -> bool, i: nat, acc: seq<nat>)
    requires |ib| == NBlocks && i < TindBlock
    requires pol.holes || ib[i] != 0
    requires !stop(|acc|)
    ensures SlotScan(img, bs, ib, pol, i).end == Done ==>
      SlotsFrom(img, bs, ib, pol, stop, i, acc) == SlotsFrom(img, bs, ib, pol, stop, i + 1, acc + SlotScan(img, bs, ib, pol, i).blocks)
    ensures SlotScan(img, bs, ib, pol, i).end != Done ==>
      SlotsFrom(img, bs, ib, pol, stop, i, acc) == Scan(acc + SlotScan(img, bs, ib, pol, i).blocks, SlotScan(img, bs, ib, pol, i).end)
    ensures acc + SlotScan(img, bs, ib, pol, i).blocks <= SlotsFrom(img, bs, ib, pol, stop, i, acc).blocks
  {
    if i == IndBlock {
      IndirectAcc(img, bs, ib[i], pol.zeroEntryEnds, acc);
    } else if i == DindBlock {
      DoubleAcc(img, bs, ib[i], pol.zeroEntryEnds, acc);
    }
  }

  /** The loop over a single-indirect block b has visited its first i
      entries, none of them zero, and the fold is at st. */
  ghost predicate IndirectAt<S>(f: (S, nat) -> Step<S>, s0: S, img: Image, bs: nat, b: nat, i: nat, st: S)
  {
    FullRead(img, b * bs, bs) && i <= bs / 4 &&
    NonZeroFrom(PointerBlock(img, bs, b).value[..i], 0) &&
    Run(f, More(s0), PointerBlock(img, bs, b).value[..i]) == More(st)
  }

  lemma IndirectAtStart<S>(f: (S, nat) -> Step<S>, s0: S, img: Image, bs: nat, b: nat)
    requires FullRead(img, b * bs, bs)
    ensures IndirectAt(f, s0, img, bs, b, 0, s0)
  {
  }

  /** The loop reads entry i of the pointer block. */
  lemma IndirectAtEntry<S>(f: (S, nat) -> Step<S>, s0: S, img: Image, bs: nat, b: nat, i: nat, st: S)
    requires IndirectAt(f, s0, img, bs, b, i, st) && i < bs / 4
    ensures U32(img, b * bs + 4 * i) == PointerBlock(img, bs, b).value[i]
  {
  }

  lemma IndirectAtStep<S>(f: (S, nat) -> Step<S>, s0: S, img: Image, bs: nat, b: nat, i: nat, st: S, z: bool)
    requires IndirectAt(f, s0, img, bs, b, i, st) && i < bs / 4
    requires PointerBlock(img, bs, b).value[i] != 0
    ensures f(st, PointerBlock(img, bs, b).value[i]).More? ==>
      IndirectAt(f, s0, img, bs, b, i + 1, f(st, PointerBlock(img, bs, b).value[i]).st)
    ensures f(st, PointerBlock(img, bs, b).value[i]).Halt? ==>
      Run(f, More(s0), Indirect(img, bs, b, z, []).blocks) == f(st, PointerBlock(img, bs, b).value[i])
  {
    var p := PointerBlock(img, bs, b).value;
    var x := p[i];
    assert p[..i + 1] == p[..i] + [x];
    RunSnoc(f, More(s0), p[..i], x);
    var q := p[..i + 1];
    forall t | 0 <= t < |q| ensures q[t] != 0 {
      if t < i { assert q[t] == p[..i][t]; }
    }
    if f(st, x).Halt? {
      var k := FirstZero(p);
      assert Indirect(img, bs, b, z, []).blocks == [] + p[..k] == p[..k];
      assert p[..i + 1] <= p[..k];
      RunHaltedPrefix(f, More(s0), p[..i + 1], p[..k]);
    }
  }

  /** The loop ends at a zero entry or after the last one: the fold over the
      block's scan is at st. */
  lemma IndirectAtEnd<S>(f: (S, nat) -> Step<S>, s0: S, img: Image, bs: nat, b: nat, i: nat, st: S, z: bool)
    requires IndirectAt(f, s0, img, bs, b, i, st)
    requires i == bs / 4 || PointerBlock(img, bs, b).value[i] == 0
    ensures Run(f, More(s0), Indirect(img, bs, b, z, []).blocks) == More(st)
    ensures Indirect(img, bs, b, z, []).end == if i < bs / 4 && z then ZeroEntry else Done
  {
    var p := PointerBlock(img, bs, b).value;
    var k := FirstZero(p);
    forall t | 0 <= t < i ensures p[t] != 0 {
      assert p[..i][t] == p[t];
    }
    assert k == i;
    assert [] + p[..k] == p[..i];
  }

  /** The slot loop is at slot i, the walk so far visited the blocks visited,
      and the fold over them is at st. */
  ghost predicate SlotsAt<S>(f: (S, nat) -> Step<S>, s0: S, img: Image, bs: nat, ib: seq<nat>, pol: Policy, stop: nat -> bool,
                             i: nat, visited: seq<nat>, st: S)
  {
    |ib| == NBlocks && i <= TindBlock &&
    SlotsFrom(img, bs, ib, pol, stop, i, visited) == Walk(img, bs, ib, pol, stop) &&
    Run(f, More(s0), visited) == More(st)
  }

  lemma SlotsAtStart<S>(f: (S, nat) -> Step<S>, s0: S, img: Image, bs: nat, ib: seq<nat>, pol: Policy, stop: nat -> bool)
    requires |ib| == NBlocks
    ensures SlotsAt(f, s0, img, bs, ib, pol, stop, 0, [], s0)
  {
  }

  /** The slot loop follows slot i from the state st: if the fold halts
      inside the slot, or the slot's pointer block ends the walk, that is the
      outcome of the whole walk; otherwise the loop goes on at slot i + 1. */
  lemma SlotStep<S>(f: (S, nat) -> Step<S>, s0: S, img: Image, bs: nat, ib: seq<nat>, pol: Policy, stop: nat -> bool,
                    i: nat, visited: seq<nat>, st: S)
    requires SlotsAt(f, s0, img, bs, ib, pol, stop, i, visited, st) && i < TindBlock
    requires pol.holes || ib[i] != 0
    requires !stop(|visited|)
    ensures Run(f, More(st), SlotScan(img, bs, ib, pol, i).blocks).Halt? ==>
      Run(f, More(s0), Walk(img, bs, ib, pol, stop).blocks) == Run(f, More(st), SlotScan(img, bs, ib, pol, i).blocks)
    ensures Run(f, More(st), SlotScan(img, bs, ib, pol, i).blocks).More? && SlotScan(img, bs, ib, pol, i).end != Done ==>
      Walk(img, bs, ib, pol, stop) == Scan(visited + SlotScan(img, bs, ib, pol, i).blocks, SlotScan(img, bs, ib, pol, i).end) &&
      Run(f, More(s0), Walk(img, bs, ib, pol, stop).blocks) == Run(f, More(st), SlotScan(img, bs, ib, pol, i).blocks)
    ensures Run(f, More(st), SlotScan(img, bs, ib, pol, i).blocks).More? && SlotScan(img, bs, ib, pol, i).end == Done ==>
      SlotsAt(f, s0, img, bs, ib, pol, stop, i + 1, visited + SlotScan(img, bs, ib, pol, i).blocks,
              Run(f, More(st), SlotScan(img, bs, ib, pol, i).blocks).st)
  {
    var sc := SlotScan(img, bs, ib, pol, i);
    var w := Walk(img, bs, ib, pol, stop);
    SlotsFromSlot(img, bs, ib, pol, stop, i, visited);
    RunExtend(f, s0, visited, sc.blocks, w.blocks, st);
  }

  /** The slot loop ends at slot 14, at a zero slot or by the stop rule: the
      walk visited exactly the blocks visited, and the fold is at st. */
  lemma SlotsEnd<S>(f: (S, nat) -> Step<S>, s0: S, img: Image, bs: nat, ib: seq<nat>, pol: Policy, stop: nat -> bool,
                    i: nat, visited: seq<nat>, st: S)
    requires SlotsAt(f, s0, img, bs, ib, pol, stop, i, visited, st)
    requires i == TindBlock || (!pol.holes && ib[i] == 0) || stop(|visited|)
    ensures Walk(img, bs, ib, pol, stop).blocks == visited
    ensures Walk(img, bs, ib, pol, stop).end ==
      if !pol.holes && ib[i] == 0 then ZeroSlot else if stop(|visited|) then Stopped else TripleSlot
    ensures Run(f, More(s0), Walk(img, bs, ib, pol, stop).blocks) == More(st)
  {
  }

  // ---------------------------------------------------------------------------
  // Folding a per-block action over the visited blocks

  /** The state after one block: go on, or halt the walk (an error, a match). */
  datatype Step<S> = More(st: S) | Halt(st: S)

  /** The action f applied to blocks in order, from s, until it halts. */
  function Run<S>(f: (S, nat) -> Step<S>, s: Step<S>, blocks: seq<nat>): (r: Step<S>)
    ensures s.Halt? ==> r == s
    ensures blocks == [] ==> r == s
    decreases |blocks|
  {
    if s.Halt? || blocks == [] then s else Run(f, f(s.st, blocks[0]), blocks[1..])
  }

  lemma {:induction false} RunAppend<S>(f: (S, nat) -> Step<S>, s: Step<S>, a: seq<nat>, b: seq<nat>)
    ensures Run(f, s, a + b) == Run(f, Run(f, s, a), b)
    decreases |a|
  {
    if s.Halt? || a == [] {
      assert a == [] ==> a + b == b;
    } else {
      assert (a + b)[0] == a[0] && (a + b)[1..] == a[1..] + b;
      RunAppend(f, f(s.st, a[0]), a[1..], b);
    }
  }

  /** One more block extends the fold by one application of f. */
  lemma RunSnoc<S>(f: (S, nat) -> Step<S>, s: Step<S>, a: seq<nat>, x: nat)
    ensures Run(f, s, a + [x]) == (var t := Run(f, s, a); if t.Halt? then t else f(t.st, x))
  {
    RunAppend(f, s, a, [x]);
  }

  /** A fold that halted on a prefix of the blocks halts the same on all of them. */
  lemma RunHaltedPrefix<S>(f: (S, nat) -> Step<S>, s: Step<S>, a: seq<nat>, b: seq<nat>)
    requires a <= b && Run(f, s, a).Halt?
    ensures Run(f, s, b) == Run(f, s, a)
  {
    assert b == a + b[|a|..];
    RunAppend(f, s, a, b[|a|..]);
  }

  /** Going on from a state the fold reached on visited: the blocks after it
      are folded from that state, and a halt among them is the halt of any
      longer walk. */
  lemma RunExtend<S>(f: (S, nat) -> Step<S>, s0: S, visited: seq<nat>, more: seq<nat>, whole: seq<nat>, st: S)
    requires Run(f, More(s0), visited) == More(st) && visited + more <= whole
    ensures Run(f, More(s0), visited + more) == Run(f, More(st), more)
    ensures Run(f, More(st), more).Halt? ==> Run(f, More(s0), whole) == Run(f, More(st), more)
  {
    RunAppend(f, More(s0), visited, more);
    if Run(f, More(st), more).Halt? {
      RunHaltedPrefix(f, More(s0), visited + more, whole);
    }
  }
}
