/** Geometry of the note commitment tree: 65,536-leaf shards made of 256-leaf sub-shards, one PIR row each. */
module Geometry {
  import opened Bytes

  const SHARD_HEIGHT: nat := 16
  const SUBSHARD_HEIGHT: nat := 8
  const SUBSHARD_LEAVES: nat := 256
  const SUBSHARDS_PER_SHARD: nat := 256
  const SHARD_LEAVES: nat := 65536
  const SUBSHARD_ROW_BYTES: nat := 8192
  const L0_DB_ROWS: nat := 8192
  const L0_MAX_SHARDS: nat := 32
  const L0_DB_BYTES: nat := L0_DB_ROWS * SUBSHARD_ROW_BYTES

  function DecomposePosition(position: nat): (nat, nat, nat)
  {
    (AsU32(position / SHARD_LEAVES), position / SUBSHARD_LEAVES % 256, position % 256)
  }

  function PhysicalRowIndex(shardIdx: nat, subshardIdx: nat, windowStartShard: nat): nat
    requires windowStartShard <= shardIdx
  {
    (shardIdx - windowStartShard) * SUBSHARDS_PER_SHARD + subshardIdx
  }

  // The shard index is cut to 32 bits, so positions repeat after this many.
  const POSITION_RANGE: nat := 0x1_0000_0000_0000

  /** The three indices are in range and rebuild the position, up to multiples of 2^48; the physical row is the
      sub-shard of the position counted from the start of the window. */
  lemma DecomposeExact(position: nat, windowStart: nat)
    ensures var (s, ss, l) := DecomposePosition(position);
            var p := position % POSITION_RANGE;
            && s < U32 && ss < 256 && l < 256 && (p < U32 ==> s < 65536)
            && s * SHARD_LEAVES + ss * SUBSHARD_LEAVES + l == p
            && (windowStart <= s ==>
                  PhysicalRowIndex(s, ss, windowStart) == (p - windowStart * SHARD_LEAVES) / SUBSHARD_LEAVES)
  {
    var (s, ss, l) := DecomposePosition(position);
    var q := position / 256;
    Quotients(position);
    if windowStart <= s {
      var r := 256 * (s - windowStart) + ss;
      assert position % POSITION_RANGE - windowStart * SHARD_LEAVES == 256 * r + l;
    }
  }

  lemma Quotients(position: nat)
    ensures position % POSITION_RANGE
            == SHARD_LEAVES * (position / SHARD_LEAVES % U32) + 256 * (position / 256 % 256) + position % 256
  {
    var q, t := position / 256, position / SHARD_LEAVES;
    var k := t / U32;
    assert t == q / 256 && position == 256 * q + position % 256 && q == 256 * t + q % 256;
    assert t == U32 * k + t % U32;
    var r := SHARD_LEAVES * (t % U32) + 256 * (q % 256) + position % 256;
    assert position == POSITION_RANGE * k + r && r < POSITION_RANGE;
  }
}
