/** `ListeningShards` of `shardpreftable.go`: a set of shard IDs kept as the bits of a byte slice. */
module Bitset {
  import opened Bits
  import opened Common

  const NUM_SHARDS := 100
  const NUM_BYTES := 13

  type Bytes = seq<bv8>

  datatype BitIndex = BitIndex(byteIndex: nat, bitIndex: nat)

  // ---------------------------------------------------------------- the code's arithmetic

  /** Go's `/` truncates toward zero. */
  function Quotient8(a: int): int {
    if a >= 0 then a / 8 else -((-a) / 8)
  }

  /** Go's `%` takes the sign of the dividend. */
  function Remainder8(a: int): int {
    a - 8 * Quotient8(a)
  }

  /** Go's `byte(...)` keeps the low eight bits. */
  function ToByte(x: int): nat {
    x % 256
  }

  /** Only the upper bound is checked: a negative ID is converted like any other number. */
  function ShardIDToBitIndex(shardID: int): Result<BitIndex> {
    if shardID >= NUM_SHARDS then Err
    else Ok(BitIndex(ToByte(Quotient8(shardID)), ToByte(Remainder8(shardID))))
  }

  // ---------------------------------------------------------------- the operations, on values

  const EMPTY: Bytes := [0, 0, 0, 0, 0, 0, 0, 0, 0, 0, 0, 0, 0]

  function WithShard(bits: Bytes, shardID: int): Result<Bytes> {
    match ShardIDToBitIndex(shardID)
    case Err => Err
    case Ok(i) =>
      if i.byteIndex >= |bits| then Err
      else Ok(bits[i.byteIndex := SetBit(bits[i.byteIndex], i.bitIndex)])
  }

  function WithoutShard(bits: Bytes, shardID: int): Result<Bytes> {
    match ShardIDToBitIndex(shardID)
    case Err => Err
    case Ok(i) =>
      if i.byteIndex >= |bits| then Err
      else Ok(bits[i.byteIndex := ClearBit(bits[i.byteIndex], i.bitIndex)])
  }

  /** `isShardSet` checks no length: outside this condition it panics. */
  predicate Testable(bits: Bytes, shardID: int) {
    shardID >= NUM_SHARDS || ToByte(Quotient8(shardID)) < |bits|
  }

  predicate HasBit(bits: Bytes, shardID: int)
    requires Testable(bits, shardID)
  {
    match ShardIDToBitIndex(shardID)
    case Err => false
    case Ok(i) => Bit(bits[i.byteIndex], i.bitIndex)
  }

  // ---------------------------------------------------------------- what the bytes mean

  predicate Has(bits: Bytes, shardID: int) {
    0 <= shardID < NUM_SHARDS && shardID / 8 < |bits| && Bit(bits[shardID / 8], shardID % 8)
  }

  ghost function ShardSet(bits: Bytes): set<int> {
    set s | 0 <= s < NUM_SHARDS && Has(bits, s)
  }

  ghost predicate InRange(shardID: int) {
    0 <= shardID < NUM_SHARDS
  }

  /** Thirteen bytes, the four bits above shard 99 clear. */
  ghost predicate WellFormed(bits: Bytes) {
    |bits| == NUM_BYTES && forall k | 4 <= k < 8 :: !Bit(bits[12], k)
  }

  // ---------------------------------------------------------------- where an ID leads in the slice

  lemma SmallByte(x: int)
    requires 0 <= x < 256
    ensures ToByte(x) == x
  {
  }

  lemma IndexInRange(shardID: int)
    requires InRange(shardID)
    ensures ShardIDToBitIndex(shardID) == Ok(BitIndex(shardID / 8, shardID % 8))
    ensures shardID / 8 < NUM_BYTES && 8 * (shardID / 8) + shardID % 8 == shardID
  {
    assert Quotient8(shardID) == shardID / 8 && 0 <= shardID / 8 < NUM_BYTES;
    assert Remainder8(shardID) == shardID % 8;
    SmallByte(shardID / 8);
    SmallByte(shardID % 8);
  }

  /** Dividing toward zero leaves a negative remainder, and as a byte that is past every bit. */
  lemma NegativeIndex(shardID: int)
    requires shardID < 0
    ensures -8 < Remainder8(shardID) <= 0 && shardID == 8 * Quotient8(shardID) + Remainder8(shardID)
    ensures ToByte(Remainder8(shardID)) < 8 <==> Remainder8(shardID) == 0
    ensures ToByte(Remainder8(shardID)) < 8 ==> ToByte(Remainder8(shardID)) == 0
  {
  }

  /** No index reaches the four bits above shard 99. */
  lemma LastByteIndex(shardID: int)
    requires ShardIDToBitIndex(shardID).Ok? && ShardIDToBitIndex(shardID).value.byteIndex == 12
    ensures ShardIDToBitIndex(shardID).value.bitIndex < 4 || 8 <= ShardIDToBitIndex(shardID).value.bitIndex
  {
    if shardID < 0 {
      NegativeIndex(shardID);
    } else {
      IndexInRange(shardID);
    }
  }

  // ---------------------------------------------------------------- refinement of a set of shards

  lemma PlaceOf(shardID: int, i: nat, k: nat)
    requires InRange(shardID) && k < 8
    ensures 8 * i + k == shardID <==> i == shardID / 8 && k == shardID % 8
  {
  }

  lemma InsertedBit(bits: Bytes, shardID: int, i: nat, k: nat)
    requires InRange(shardID) && shardID / 8 < |bits| && i < |bits| && k < 8
    ensures WithShard(bits, shardID).Ok? && |WithShard(bits, shardID).value| == |bits|
    ensures Bit(WithShard(bits, shardID).value[i], k) <==> Bit(bits[i], k) || 8 * i + k == shardID
  {
    IndexInRange(shardID);
    PlaceOf(shardID, i, k);
    if i == shardID / 8 {
      BitAfterSet(bits[i], k, shardID % 8);
    }
  }

  lemma DeletedBit(bits: Bytes, shardID: int, i: nat, k: nat)
    requires InRange(shardID) && shardID / 8 < |bits| && i < |bits| && k < 8
    ensures WithoutShard(bits, shardID).Ok? && |WithoutShard(bits, shardID).value| == |bits|
    ensures Bit(WithoutShard(bits, shardID).value[i], k) <==> Bit(bits[i], k) && 8 * i + k != shardID
  {
    IndexInRange(shardID);
    PlaceOf(shardID, i, k);
    if i == shardID / 8 {
      BitAfterClear(bits[i], k, shardID % 8);
    }
  }

  /** `setShard` inserts, and no bit but the one of its shard moves; it fails exactly on IDs past
      the end (of the range or of the slice). */
  lemma WithShardInserts(bits: Bytes, shardID: int)
    requires 0 <= shardID
    ensures WithShard(bits, shardID).Ok? <==> shardID < NUM_SHARDS && shardID / 8 < |bits|
    ensures WithShard(bits, shardID).Ok? ==>
              var after := WithShard(bits, shardID).value;
              && |after| == |bits|
              && ShardSet(after) == ShardSet(bits) + {shardID}
              && (forall i, k | 0 <= i < |bits| && 0 <= k < 8 ::
                    Bit(after[i], k) <==> Bit(bits[i], k) || 8 * i + k == shardID)
  {
    if InRange(shardID) {
      IndexInRange(shardID);
      if shardID / 8 < |bits| {
        forall i, k | 0 <= i < |bits| && 0 <= k < 8
          ensures Bit(WithShard(bits, shardID).value[i], k) <==> Bit(bits[i], k) || 8 * i + k == shardID
        {
          InsertedBit(bits, shardID, i, k);
        }
        forall s | InRange(s) ensures Has(WithShard(bits, shardID).value, s) <==> Has(bits, s) || s == shardID {
          PlaceOf(s, s / 8, s % 8);
        }
      }
    }
  }

  /** `unsetShard` deletes, and no bit but the one of its shard moves. */
  lemma WithoutShardDeletes(bits: Bytes, shardID: int)
    requires 0 <= shardID
    ensures WithoutShard(bits, shardID).Ok? <==> shardID < NUM_SHARDS && shardID / 8 < |bits|
    ensures WithoutShard(bits, shardID).Ok? ==>
              var after := WithoutShard(bits, shardID).value;
              && |after| == |bits|
              && ShardSet(after) == ShardSet(bits) - {shardID}
              && (forall i, k | 0 <= i < |bits| && 0 <= k < 8 ::
                    Bit(after[i], k) <==> Bit(bits[i], k) && 8 * i + k != shardID)
  {
    if InRange(shardID) {
      IndexInRange(shardID);
      if shardID / 8 < |bits| {
        forall i, k | 0 <= i < |bits| && 0 <= k < 8
          ensures Bit(WithoutShard(bits, shardID).value[i], k) <==> Bit(bits[i], k) && 8 * i + k != shardID
        {
          DeletedBit(bits, shardID, i, k);
        }
        forall s | InRange(s) ensures Has(WithoutShard(bits, shardID).value, s) <==> Has(bits, s) && s != shardID {
          PlaceOf(s, s / 8, s % 8);
        }
      }
    }
  }

  /** `isShardSet` is membership; the received slice must be long enough. */
  lemma HasBitIsMembership(bits: Bytes, shardID: int)
    requires 0 <= shardID
    ensures Testable(bits, shardID) <==> shardID >= NUM_SHARDS || shardID / 8 < |bits|
    ensures Testable(bits, shardID) ==> (HasBit(bits, shardID) <==> shardID in ShardSet(bits))
  {
    if InRange(shardID) {
      IndexInRange(shardID);
    }
  }

  lemma EmptyHasNoShards()
    ensures ShardSet(EMPTY) == {} && WellFormed(EMPTY)
  {
    forall k: nat ensures !Bit(0, k) { ZeroHasNoBits(k); }
  }

  // ---------------------------------------------------------------- the shard that an ID leads to

  /** The shard whose bit the code reads and writes for an ID: the ID itself if it is in range, for a
      negative ID wherever the conversions lead, if they lead to a bit at all. */
  function Target(shardID: int): Option<int> {
    match ShardIDToBitIndex(shardID)
    case Err => None
    case Ok(i) => if i.byteIndex < NUM_BYTES && i.bitIndex < 8 then Some(8 * i.byteIndex + i.bitIndex) else None
  }

  /** Looking the ID up in thirteen bytes does not panic. */
  predicate Addressable(shardID: int) {
    Testable(EMPTY, shardID)
  }

  ghost predicate Accepted(shardID: int) {
    shardID < NUM_SHARDS && Addressable(shardID)
  }

  ghost function TargetSet(shardID: int): set<int> {
    if Target(shardID).Some? then {Target(shardID).value} else {}
  }

  lemma SplitIndex(byteIndex: nat, bitIndex: nat)
    requires byteIndex < NUM_BYTES && bitIndex < 8
    ensures (8 * byteIndex + bitIndex) / 8 == byteIndex && (8 * byteIndex + bitIndex) % 8 == bitIndex
  {
  }

  lemma ResidueOf2048(x: int, a: int, r: int)
    requires x == 2048 * a + r && 0 <= r < 2048
    ensures x % 2048 == r
  {
    assert x / 2048 == a;
  }

  lemma WrapsAt2048(q: int)
    ensures (8 * q) % 8 == 0 && (8 * q) % 2048 == 8 * (q % 256)
  {
    var a, r := q / 256, q % 256;
    assert q == 256 * a + r && 0 <= r < 256;
    ResidueOf2048(8 * q, a, 8 * r);
  }

  lemma DivisibleBy8(x: int, q: int, r: int)
    requires x == 8 * q + r && -8 < r <= 0
    ensures x % 8 == 0 <==> r == 0
  {
    assert x == 8 * (q - 1) + (r + 8);
  }

  lemma TargetOfNegative(shardID: int)
    requires shardID < 0
    ensures Target(shardID) == if shardID % 8 == 0 && InRange(shardID % 2048) then Some(shardID % 2048) else None
  {
    var q, r := Quotient8(shardID), Remainder8(shardID);
    NegativeIndex(shardID);
    DivisibleBy8(shardID, q, r);
    if r == 0 {
      WrapsAt2048(q);
      assert shardID % 2048 == 8 * ToByte(q);
      assert InRange(8 * ToByte(q)) <==> ToByte(q) < NUM_BYTES;
    }
  }

  /** Which IDs lead to which shards: a negative one must be a multiple of 8, and then wraps at 2048. */
  lemma TargetIs(shardID: int)
    ensures shardID >= 0 ==> Target(shardID) == if InRange(shardID) then Some(shardID) else None
    ensures shardID < 0 ==>
              Target(shardID) == if shardID % 8 == 0 && InRange(shardID % 2048) then Some(shardID % 2048) else None
    ensures Target(shardID).Some? ==> InRange(Target(shardID).value) && Accepted(shardID)
  {
    if shardID < 0 {
      TargetOfNegative(shardID);
    } else if InRange(shardID) {
      IndexInRange(shardID);
    }
  }

  /** `setShard`, `unsetShard` and `isShardSet` on any integer at all: they act on the target. */
  lemma ActsOnTarget(bits: Bytes, shardID: int)
    requires |bits| == NUM_BYTES
    ensures WithShard(bits, shardID).Ok? <==> Accepted(shardID)
    ensures WithoutShard(bits, shardID).Ok? <==> Accepted(shardID)
    ensures Testable(bits, shardID) <==> Addressable(shardID)
    ensures Accepted(shardID) ==>
              && ShardSet(WithShard(bits, shardID).value) == ShardSet(bits) + TargetSet(shardID)
              && ShardSet(WithoutShard(bits, shardID).value) == ShardSet(bits) - TargetSet(shardID)
    ensures Addressable(shardID) ==>
            (HasBit(bits, shardID) <==> TargetSet(shardID) != {} && TargetSet(shardID) <= ShardSet(bits))
  {
    TargetIs(shardID);
    if Target(shardID).Some? {
      ActsLikeTarget(bits, shardID, Target(shardID).value);
    } else if Accepted(shardID) {
      var i := ShardIDToBitIndex(shardID).value;
      NoBitToMove(bits[i.byteIndex], i.bitIndex);
      assert WithShard(bits, shardID).value == bits;
      assert WithoutShard(bits, shardID).value == bits;
    }
  }

  lemma ActsLikeTarget(bits: Bytes, shardID: int, target: int)
    requires |bits| == NUM_BYTES && Target(shardID) == Some(target) && InRange(target)
    ensures WithShard(bits, shardID).Ok? && ShardSet(WithShard(bits, shardID).value) == ShardSet(bits) + {target}
    ensures WithoutShard(bits, shardID).Ok? && ShardSet(WithoutShard(bits, shardID).value) == ShardSet(bits) - {target}
    ensures Testable(bits, shardID) && (HasBit(bits, shardID) <==> target in ShardSet(bits))
  {
    SameIndex(shardID, target);
    WithShardInserts(bits, target);
    WithoutShardDeletes(bits, target);
    HasBitIsMembership(bits, target);
  }

  lemma IndexOfPlace(byteIndex: nat, bitIndex: nat)
    requires byteIndex < NUM_BYTES && bitIndex < 8 && InRange(8 * byteIndex + bitIndex)
    ensures ShardIDToBitIndex(8 * byteIndex + bitIndex) == Ok(BitIndex(byteIndex, bitIndex))
  {
    SplitIndex(byteIndex, bitIndex);
    IndexInRange(8 * byteIndex + bitIndex);
  }

  lemma SameIndex(shardID: int, target: int)
    requires Target(shardID) == Some(target) && InRange(target)
    ensures ShardIDToBitIndex(target) == ShardIDToBitIndex(shardID)
  {
    match ShardIDToBitIndex(shardID)
    case Ok(i) => IndexOfPlace(i.byteIndex, i.bitIndex);
  }

  // ---------------------------------------------------------------- runs and canonical encoding

  datatype BitOp = Set(shardID: int) | Unset(shardID: int)

  /** One call; an error leaves the bytes as they were. */
  function ApplyBits(bits: Bytes, op: BitOp): Bytes {
    var after := match op
      case Set(s) => WithShard(bits, s)
      case Unset(s) => WithoutShard(bits, s);
    if after.Ok? then after.value else bits
  }

  function RunBits(bits: Bytes, ops: seq<BitOp>): Bytes {
    if ops == [] then bits else ApplyBits(RunBits(bits, ops[..|ops| - 1]), ops[|ops| - 1])
  }

  /** On sets, `Set` inserts and `Unset` deletes the shard that its ID leads to. */
  ghost function RunSet(shards: set<int>, ops: seq<BitOp>): set<int> {
    if ops == [] then shards
    else
      var before := RunSet(shards, ops[..|ops| - 1]);
      match ops[|ops| - 1]
      case Set(s) => before + TargetSet(s)
      case Unset(s) => before - TargetSet(s)
  }

  lemma ApplyKeepsUpperHalf(bits: Bytes, op: BitOp, j: nat)
    requires |bits| == NUM_BYTES && 4 <= j < 8
    ensures |ApplyBits(bits, op)| == NUM_BYTES && Bit(ApplyBits(bits, op)[12], j) == Bit(bits[12], j)
  {
    var index := ShardIDToBitIndex(op.shardID);
    if index.Ok? && index.value.byteIndex == 12 {
      LastByteIndex(op.shardID);
      UpperHalfUntouched(bits[12], index.value.bitIndex, j);
    }
  }

  lemma ApplyKeepsWellFormed(bits: Bytes, op: BitOp)
    requires WellFormed(bits)
    ensures WellFormed(ApplyBits(bits, op))
  {
    forall j | 4 <= j < 8 ensures |ApplyBits(bits, op)| == NUM_BYTES && !Bit(ApplyBits(bits, op)[12], j) {
      ApplyKeepsUpperHalf(bits, op, j);
    }
    ApplyKeepsUpperHalf(bits, op, 4);
  }

  /** Whatever int64s are set and unset, the bytes stay well formed. */
  lemma {:induction false} ReachableWellFormed(bits: Bytes, ops: seq<BitOp>)
    requires WellFormed(bits)
    ensures WellFormed(RunBits(bits, ops))
  {
    if ops == [] {
    } else {
      ReachableWellFormed(bits, ops[..|ops| - 1]);
      ApplyKeepsWellFormed(RunBits(bits, ops[..|ops| - 1]), ops[|ops| - 1]);
    }
  }

  /** Runs of bit operations refine runs of set operations. */
  lemma {:induction false} RunBitsRefinesRunSet(bits: Bytes, ops: seq<BitOp>)
    requires WellFormed(bits)
    ensures ShardSet(RunBits(bits, ops)) == RunSet(ShardSet(bits), ops)
  {
    if ops == [] {
    } else {
      var pre, op := ops[..|ops| - 1], ops[|ops| - 1];
      RunBitsRefinesRunSet(bits, pre);
      ReachableWellFormed(bits, pre);
      ActsOnTarget(RunBits(bits, pre), op.shardID);
      TargetIs(op.shardID);
    }
  }

  lemma WellFormedExtensionality(a: Bytes, b: Bytes)
    requires WellFormed(a) && WellFormed(b)
    requires ShardSet(a) == ShardSet(b)
    ensures a == b
  {
    forall i | 0 <= i < NUM_BYTES ensures a[i] == b[i] {
      forall k: nat | k < 8 ensures Bit(a[i], k) == Bit(b[i], k) {
        var s := 8 * i + k;
        assert s / 8 == i && s % 8 == k;
        if InRange(s) {
          assert s in ShardSet(a) <==> Has(a, s);
          assert s in ShardSet(b) <==> Has(b, s);
        } else {
          assert i == 12 && 4 <= k;
        }
      }
      ByteExtensionality(a[i], b[i]);
    }
  }

  /** Two histories of calls mean the same set of shards exactly when they leave the same bytes. */
  lemma CanonicalEncoding(ops1: seq<BitOp>, ops2: seq<BitOp>)
    ensures RunSet({}, ops1) == RunSet({}, ops2) <==> RunBits(EMPTY, ops1) == RunBits(EMPTY, ops2)
  {
    EmptyHasNoShards();
    RunBitsRefinesRunSet(EMPTY, ops1);
    RunBitsRefinesRunSet(EMPTY, ops2);
    ReachableWellFormed(EMPTY, ops1);
    ReachableWellFormed(EMPTY, ops2);
    if RunSet({}, ops1) == RunSet({}, ops2) {
      WellFormedExtensionality(RunBits(EMPTY, ops1), RunBits(EMPTY, ops2));
    }
  }

  // ---------------------------------------------------------------- enumeration and rebuild

  /** `s` is the one ascending list of the members of `members`. */
  ghost predicate ListsInOrder(s: seq<int>, members: set<int>) {
    Ascending(s) && Elements(s) == members
  }

  lemma {:induction false} AscendingUnique(a: seq<int>, b: seq<int>)
    requires Ascending(a) && Ascending(b) && Elements(a) == Elements(b)
    ensures a == b
  {
    DistinctSize(a);
    DistinctSize(b);
    if a == [] {
    } else {
      var x, y := a[|a| - 1], b[|b| - 1];
      assert x in Elements(b) && y in Elements(a);
      var a', b' := a[..|a| - 1], b[..|b| - 1];
      assert Elements(a') == Elements(a) - {x} && Elements(b') == Elements(b) - {y};
      AscendingUnique(a', b');
      assert a == a' + [x] && b == b' + [y];
    }
  }

  /** The effect of `fromSlice`: one `setShard` after another, errors ignored. */
  function WithShards(bits: Bytes, shards: seq<int>): Bytes {
    if shards == [] then bits
    else ApplyBits(WithShards(bits, shards[..|shards| - 1]), Set(shards[|shards| - 1]))
  }

  ghost function InRangePart(shards: seq<int>): set<int> {
    set s | s in shards && InRange(s)
  }

  /** The shards that the IDs of a list lead to; without negative IDs, its part in range. */
  ghost function Targets(shards: seq<int>): set<int> {
    set s | s in shards && Target(s).Some? :: Target(s).value
  }

  lemma TargetsInRange(shards: seq<int>)
    requires forall s | s in shards :: 0 <= s
    ensures Targets(shards) == InRangePart(shards)
  {
    forall s | s in shards ensures Target(s) == if InRange(s) then Some(s) else None { TargetIs(s); }
  }

  lemma {:induction false} WithShardsAddsTargets(bits: Bytes, shards: seq<int>)
    requires WellFormed(bits)
    ensures WellFormed(WithShards(bits, shards))
    ensures ShardSet(WithShards(bits, shards)) == ShardSet(bits) + Targets(shards)
  {
    if shards == [] {
    } else {
      var n := |shards| - 1;
      assert shards == shards[..n] + [shards[n]];
      assert forall s :: s in shards <==> s in shards[..n] || s == shards[n];
      WithShardsAddsTargets(bits, shards[..n]);
      assert Targets(shards) == Targets(shards[..n]) + TargetSet(shards[n]);
      ActsOnTarget(WithShards(bits, shards[..n]), shards[n]);
      TargetIs(shards[n]);
      ApplyKeepsWellFormed(WithShards(bits, shards[..n]), Set(shards[n]));
    }
  }

  /** Listing a reachable bitset and building a fresh one from the list gives back the same bytes. */
  lemma RebuildIsIdentity(bits: Bytes, shards: seq<int>)
    requires WellFormed(bits) && ListsInOrder(shards, ShardSet(bits))
    ensures WithShards(EMPTY, shards) == bits
  {
    EmptyHasNoShards();
    forall s | s in shards ensures InRange(s) { assert s in Elements(shards); }
    WithShardsAddsTargets(EMPTY, shards);
    TargetsInRange(shards);
    assert InRangePart(shards) == Elements(shards);
    WellFormedExtensionality(WithShards(EMPTY, shards), bits);
  }

  // ---------------------------------------------------------------- negative shard IDs

  /** What a caller of `setShard` may expect of any int64: insertion in range, an error outside. */
  ghost predicate SetsAsDocumented(shardID: int) {
    forall bits | WellFormed(bits) ::
      if InRange(shardID)
      then WithShard(bits, shardID).Ok? && ShardSet(WithShard(bits, shardID).value) == ShardSet(bits) + {shardID}
      else WithShard(bits, shardID).Err?
  }

  /** A negative ID is accepted exactly when its wrapped byte index lands in the slice. */
  lemma NegativeIDAccepted(shardID: int)
    ensures SetsAsDocumented(shardID) <==> shardID >= 0 || ToByte(Quotient8(shardID)) >= NUM_BYTES
  {
    EmptyHasNoShards();
    if shardID >= 0 {
      forall bits | WellFormed(bits) ensures
        if InRange(shardID)
        then WithShard(bits, shardID).Ok? && ShardSet(WithShard(bits, shardID).value) == ShardSet(bits) + {shardID}
        else WithShard(bits, shardID).Err?
      {
        WithShardInserts(bits, shardID);
      }
    } else if ToByte(Quotient8(shardID)) < NUM_BYTES {
      assert WithShard(EMPTY, shardID).Ok?;
    }
  }

  /** -2048 wraps to byte 0, bit 0: asking for it listens to shard 0. */
  lemma NegativeIDAliasesShardZero()
    ensures WithShard(EMPTY, -2048) == WithShard(EMPTY, 0)
    ensures ShardSet(WithShard(EMPTY, -2048).value) == {0}
  {
    TargetIs(-2048);
    SameIndex(-2048, 0);
    ActsOnTarget(EMPTY, -2048);
    EmptyHasNoShards();
  }

  // ---------------------------------------------------------------- the mutable object

  class ListeningShards {
    var shardBits: array<bv8>

    constructor ()
      ensures fresh(shardBits) && shardBits[..] == EMPTY
    {
      shardBits := new bv8[NUM_BYTES](_ => 0);
    }

    method SetShard(shardID: int) returns (ok: bool)
      modifies shardBits
      ensures ok <==> WithShard(old(shardBits[..]), shardID).Ok?
      ensures shardBits[..] == ApplyBits(old(shardBits[..]), Set(shardID))
    {
      var index := ShardIDToBitIndex(shardID);
      if index.Err? || index.value.byteIndex >= shardBits.Length {
        ok := false;
      } else {
        var b, k := index.value.byteIndex, index.value.bitIndex;
        var mask := ShiftOne(k);
        shardBits[b] := shardBits[b] | mask;
        ok := true;
      }
    }

    method UnsetShard(shardID: int) returns (ok: bool)
      modifies shardBits
      ensures ok <==> WithoutShard(old(shardBits[..]), shardID).Ok?
      ensures shardBits[..] == ApplyBits(old(shardBits[..]), Unset(shardID))
    {
      var index := ShardIDToBitIndex(shardID);
      if index.Err? || index.value.byteIndex >= shardBits.Length {
        ok := false;
      } else {
        var b, k := index.value.byteIndex, index.value.bitIndex;
        var mask := ShiftOne(k);
        shardBits[b] := shardBits[b] & !mask;
        ok := true;
      }
    }

    method IsShardSet(shardID: int) returns (isSet: bool)
      requires Testable(shardBits[..], shardID)
      ensures isSet <==> HasBit(shardBits[..], shardID)
      ensures 0 <= shardID ==> (isSet <==> shardID in ShardSet(shardBits[..]))
    {
      var index := ShardIDToBitIndex(shardID);
      if index.Err? {
        return false;
      }
      var b, k := index.value.byteIndex, index.value.bitIndex;
      var mask := ShiftOne(k);
      isSet := shardBits[b] & mask != 0;
      assert isSet <==> Bit(shardBits[..][b], k);
      if 0 <= shardID {
        HasBitIsMembership(shardBits[..], shardID);
      }
    }

    method GetShards() returns (shards: seq<int>)
      requires shardBits.Length >= NUM_BYTES
      ensures ListsInOrder(shards, ShardSet(shardBits[..]))
    {
      shards := [];
      var shardID := 0;
      while shardID < NUM_SHARDS
        invariant 0 <= shardID <= NUM_SHARDS
        invariant Ascending(shards)
        invariant Elements(shards) == set s | 0 <= s < shardID && Has(shardBits[..], s)
      {
        var isSet := IsShardSet(shardID);
        if isSet {
          assert forall i | 0 <= i < |shards| :: shards[i] in Elements(shards);
          ElementsAppend(shards, shardID);
          shards := shards + [shardID];
        }
        shardID := shardID + 1;
      }
    }

    method FromSlice(shards: seq<int>)
      modifies shardBits
      ensures shardBits[..] == WithShards(old(shardBits[..]), shards)
      ensures WellFormed(old(shardBits[..])) ==>
              ShardSet(shardBits[..]) == old(ShardSet(shardBits[..])) + Targets(shards)
    {
      ghost var before := shardBits[..];
      for i := 0 to |shards|
        invariant shardBits[..] == WithShards(before, shards[..i])
      {
        assert shards[..i + 1][..i] == shards[..i];
        var _ := SetShard(shards[i]);
      }
      assert shards[..|shards|] == shards;
      if WellFormed(before) {
        WithShardsAddsTargets(before, shards);
      }
    }

    /** No copy is made: the record and whoever handed over the slice now share it. */
    method FromBytes(bytes: array<bv8>)
      modifies this
      ensures shardBits == bytes
    {
      shardBits := bytes;
    }

    /** No copy is made: the caller receives the live slice. */
    method ToBytes() returns (bytes: array<bv8>)
      ensures bytes == shardBits
    {
      bytes := shardBits;
    }
  }
}
