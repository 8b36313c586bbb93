/** libc/string.c: copies and fills inside one shared byte memory. Pointers are
    offsets into `mem`, so source and destination may overlap in any way. */
module Memory {
  import opened Machine

  /** What a copy promises: the destination range holds the old source range and
      every other byte is the old one. */
  function Moved(m: seq<u8>, dst: nat, src: nat, n: nat): seq<u8>
    requires dst + n <= |m| && src + n <= |m|
  {
    m[..dst] + m[src..src + n] + m[dst + n..]
  }

  /** The direction test of `memmove`. */
  predicate CopiesBackwards(dst: nat, src: nat, n: nat) {
    src < dst && src + n >= dst
  }

  /** The memory `memmove` leaves. The backward loop counts down in an `int`; a
      length above 2^31 makes the counter start below zero, and nothing moves. */
  function MemmoveResult(m: seq<u8>, dst: nat, src: nat, n: nat): seq<u8>
    requires dst + n <= |m| && src + n <= |m|
  {
    if CopiesBackwards(dst, src, n) && n > TWO31 then m else Moved(m, dst, src, n)
  }

  lemma MovedPointwise(was: seq<u8>, now: seq<u8>, dst: nat, src: nat, n: nat)
    requires dst + n <= |was| == |now| && src + n <= |was|
    requires forall k :: 0 <= k < |was| && !(dst <= k < dst + n) ==> now[k] == was[k]
    requires forall k :: dst <= k < dst + n ==> now[k] == was[k - dst + src]
    ensures now == Moved(was, dst, src, n)
  {
    var r := Moved(was, dst, src, n);
    forall k | 0 <= k < |now| ensures now[k] == r[k] {
      if dst <= k < dst + n {
        assert r[k] == was[src..src + n][k - dst];
      }
    }
  }

  method Memmove(mem: array<u8>, dst: u32, src: u32, n: u32)
    requires dst + n <= mem.Length < TWO32 && src + n <= mem.Length
    modifies mem
    ensures mem[..] == MemmoveResult(old(mem[..]), dst, src, n)
  {
    ghost var was := mem[..];
    if src < dst && src + n >= dst {
      var i := ToInt32(n - 1);
      if n > TWO31 {
        assert i < 0;
      }
      while i >= 0
        invariant if n > TWO31 then i < 0 else -1 <= i < n
        invariant forall k :: 0 <= k < mem.Length && (n > TWO31 || !(dst + i < k < dst + n)) ==> mem[k] == was[k]
        invariant n <= TWO31 ==> forall k :: dst + i < k < dst + n ==> mem[k] == was[k - dst + src]
      {
        mem[dst + i] := mem[src + i];
        i := i - 1;
      }
    } else {
      var i := 0;
      while i < n
        invariant 0 <= i <= n
        invariant forall k :: 0 <= k < mem.Length && !(dst <= k < dst + i) ==> mem[k] == was[k]
        invariant forall k :: dst <= k < dst + i ==> mem[k] == was[k - dst + src]
      {
        mem[dst + i] := mem[src + i];
        i := i + 1;
      }
    }
    if CopiesBackwards(dst, src, n) && n > TWO31 {
      assert mem[..] == was;
    } else {
      MovedPointwise(was, mem[..], dst, src, n);
    }
  }

  method Memcpy(mem: array<u8>, dst: u32, src: u32, n: u32)
    requires dst + n <= mem.Length < TWO32 && src + n <= mem.Length
    modifies mem
    ensures mem[..] == MemmoveResult(old(mem[..]), dst, src, n)
  {
    Memmove(mem, dst, src, n);
  }

  method Memset(mem: array<u8>, d: u32, c: u8, n: u32)
    requires d + n <= mem.Length < TWO32
    modifies mem
    ensures mem[..] == old(mem[..d]) + Rep(c, n) + old(mem[d + n..])
  {
    ghost var was := mem[..];
    var i := 0;
    while i < n
      invariant 0 <= i <= n
      invariant forall k :: 0 <= k < mem.Length && !(d <= k < d + i) ==> mem[k] == was[k]
      invariant forall k :: d <= k < d + i ==> mem[k] == c
    {
      mem[d + i] := c;
      i := i + 1;
    }
  }

  /** `memmove` keeps its promise for every memory content exactly when it copies
      forwards or the length fits the signed loop counter. */
  lemma MemmoveCorrectIff(size: nat, dst: nat, src: nat, n: nat)
    requires dst + n <= size && src + n <= size
    ensures (forall m: seq<u8> | |m| == size :: MemmoveResult(m, dst, src, n) == Moved(m, dst, src, n))
       <==> !(CopiesBackwards(dst, src, n) && n > TWO31)
  {
    if CopiesBackwards(dst, src, n) && n > TWO31 {
      var m: seq<u8> := seq(size, i => if i == src then 1 else 0);
      assert m[src] == 1;
      assert Moved(m, dst, src, n)[dst] == m[src];
      assert MemmoveResult(m, dst, src, n)[dst] == 0;
    }
  }
}
