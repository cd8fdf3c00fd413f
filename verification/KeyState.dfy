/** Rebuilding 64-bit key positions from the 32 bits on the wire. */
module KeyState {
  import opened Bytes
  import opened SeqNum

  /** chiaki_key_state_request_pos as a function of the remembered position. */
  function RequestPos(prev: nat, low: nat): (pos: nat)
    requires prev < U64 && low < U32
    ensures pos < U64
  {
    var prevLow, high := prev % U32, prev / U32;
    var h := if Gt(Bits32, low, prevLow) && low < prevLow then (high + 1) % U32
             else if Lt(Bits32, low, prevLow) && low > prevLow && high > 0 then high - 1
             else high;
    h * U32 + low
  }

  /** The positions that are rebuilt correctly after prev: everything less than
      2^31 away (also across 2^64), and in addition whatever lies in the same
      2^32 page and is exactly 2^31 away, or is ahead of prev in page zero. */
  predicate Recoverable(prev: nat, pos: nat) {
    || Near(prev, pos)
    || pos + U64 - prev < 0x8000_0000
    || (pos / U32 == prev / U32 &&
          (pos - prev == 0x8000_0000 || prev - pos == 0x8000_0000 || (prev / U32 == 0 && pos > prev)))
  }

  lemma RecoveredExactly(prev: nat, pos: nat)
    requires prev < U64 && pos < U64
    ensures RequestPos(prev, pos % U32) == pos <==> Recoverable(prev, pos)
  {
    var a, b, h, k := prev % U32, pos % U32, prev / U32, pos / U32;
    assert prev == h * U32 + a && pos == k * U32 + b;
  }

  /** Asking again for a position that was just committed returns it. */
  lemma CommittedIsStable(pos: nat)
    requires pos < U64
    ensures RequestPos(pos, pos % U32) == pos
  {
  }

  /** The positions a receiver rebuilds from a run of authentic wire values,
      committing each one. */
  function Follow(prev: nat, lows: seq<nat>): seq<nat>
    requires prev < U64 && forall i :: 0 <= i < |lows| ==> lows[i] < U32
    decreases |lows|
  {
    if lows == [] then [] else
      var pos := RequestPos(prev, lows[0]);
      [pos] + (if pos < U64 then Follow(pos, lows[1..]) else [])
  }

  predicate Near(a: int, b: int) {
    a - b < 0x8000_0000 && b - a < 0x8000_0000
  }

  /** The low halves that go over the wire. */
  function Lows(positions: seq<nat>): (lows: seq<nat>)
    ensures |lows| == |positions| && forall i :: 0 <= i < |lows| ==> lows[i] < U32
  {
    if positions == [] then [] else [positions[0] % U32] + Lows(positions[1..])
  }

  /** Each position is near the one before it. */
  predicate Smooth(prev: nat, positions: seq<nat>)
    decreases |positions|
  {
    positions != [] ==> Near(prev, positions[0]) && Smooth(positions[0], positions[1..])
  }

  /** If no position jumps by 2^31 or more from the one before it, in either
      direction, a whole run is rebuilt exactly, across any number of wraps. */
  lemma {:induction false} RunRecovered(prev: nat, positions: seq<nat>)
    requires prev < U64 && forall i :: 0 <= i < |positions| ==> positions[i] < U64
    requires Smooth(prev, positions)
    ensures Follow(prev, Lows(positions)) == positions
    decreases |positions|
  {
    if positions != [] {
      RecoveredExactly(prev, positions[0]);
      RunRecovered(positions[0], positions[1..]);
      assert Lows(positions)[1..] == Lows(positions[1..]);
    }
  }

  class KeyState {
    var prev: nat

    constructor ()
      ensures prev == 0
    {
      prev := 0;
    }

    method Request(low: nat, commit: bool) returns (pos: nat)
      requires prev < U64 && low < U32
      modifies this
      ensures pos == RequestPos(old(prev), low) && pos < U64
      ensures prev == if commit then pos else old(prev)
    {
      var prevLow, high := prev % U32, prev / U32;
      if Gt(Bits32, low, prevLow) && low < prevLow {
        high := (high + 1) % U32;
      } else if Lt(Bits32, low, prevLow) && low > prevLow && high > 0 {
        high := high - 1;
      }
      pos := high * U32 + low;
      if commit {
        prev := pos;
      }
    }

    method Commit(pos: nat)
      modifies this
      ensures prev == pos
    {
      prev := pos;
    }
  }
}
