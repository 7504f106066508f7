/** The growing byte buffer (`struct mrsh_buffer`). Allocation does not fail here. */
module Buffers {

  const INITIAL_CAPACITY := 32

  /** The capacity after growing from `cap` so that `needed` bytes fit. */
  function GrownCapacity(cap: nat, needed: nat): (r: nat)
    ensures r >= needed && r >= 2 * cap && r >= (if cap == 0 then INITIAL_CAPACITY else 0)
    ensures r == needed || r == 2 * cap || (cap == 0 && r == INITIAL_CAPACITY)
  {
    var doubled := if cap == 0 then INITIAL_CAPACITY else 2 * cap;
    if doubled < needed then needed else doubled
  }

  class Buffer {
    var data: array<char>
    var len: nat

    ghost predicate Valid()
      reads this
    {
      len <= data.Length
    }

    ghost function Contents(): (s: seq<char>)
      requires Valid()
      reads this, data
      ensures |s| == len
    {
      data[..len]
    }

    constructor ()
      ensures Valid() && Contents() == [] && fresh(data)
    {
      data := new char[0];
      len := 0;
    }

    /** Makes room for `size` more bytes: the block is kept when they fit, else moved to a larger one. */
    method Reserve(size: nat)
      requires Valid()
      modifies this
      ensures Valid() && len == old(len) && Contents() == old(Contents())
      ensures len + size <= data.Length
      ensures if old(len + size <= data.Length) then data == old(data)
              else fresh(data) && data.Length == GrownCapacity(old(data.Length), len + size)
    {
      var newLen := len + size;
      if newLen > data.Length {
        var grown := new char[GrownCapacity(data.Length, newLen)];
        forall i | 0 <= i < len {
          grown[i] := data[i];
        }
        data := grown;
      }
    }

    method Append(s: seq<char>)
      requires Valid()
      modifies this, data
      ensures Valid() && Contents() == old(Contents()) + s
      ensures data == old(data) || fresh(data)
    {
      Reserve(|s|);
      ghost var before := Contents();
      forall i | 0 <= i < |s| {
        data[len + i] := s[i];
      }
      len := len + |s|;
      assert data[..len] == before + s;
    }

    method AppendChar(c: char)
      requires Valid()
      modifies this, data
      ensures Valid() && Contents() == old(Contents()) + [c]
      ensures data == old(data) || fresh(data)
    {
      Reserve(1);
      data[len] := c;
      len := len + 1;
    }

    /** Drops the first `n` bytes by moving the others down (the `memmove` of `parser_read`). */
    method DropFront(n: nat)
      requires Valid() && n <= len
      modifies this, data
      ensures Valid() && data == old(data)
      ensures Contents() == old(Contents())[n..]
    {
      forall i | 0 <= i < len - n {
        data[i] := data[i + n];
      }
      len := len - n;
    }

    /** Hands the block over and leaves the buffer empty. */
    method Steal() returns (block: array<char>)
      requires Valid()
      modifies this
      ensures block == old(data) && block[..old(len)] == old(Contents())
      ensures Valid() && Contents() == [] && fresh(data)
    {
      block := data;
      data := new char[0];
      len := 0;
    }
  }
}
