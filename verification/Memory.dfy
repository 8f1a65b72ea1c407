/** Blocks of bytes: copying, and growing by doubling. */
module Memory {
  import opened Bytes

  /** `base` doubled `k` times. */
  function Doublings(base: nat, k: nat): nat {
    if k == 0 then base else 2 * Doublings(base, k - 1)
  }

  lemma {:induction false} DoublingsShift(base: nat, k: nat)
    ensures Doublings(2 * base, k) == Doublings(base, k + 1)
  {
    if k > 0 {
      DoublingsShift(base, k - 1);
    }
  }

  lemma {:induction false} DoublingsGrow(base: nat, k: nat)
    ensures base <= Doublings(base, k)
  {
    if k > 0 {
      DoublingsGrow(base, k - 1);
    }
  }

  /** A size that doubling from `base` can reach. */
  ghost predicate Reachable(base: nat, size: nat) {
    exists k: nat :: size == Doublings(base, k)
  }

  lemma DoubleReachable(base: nat, size: nat)
    requires Reachable(base, size)
    ensures Reachable(base, 2 * size)
  {
    var k: nat :| size == Doublings(base, k);
    assert 2 * size == Doublings(base, k + 1);
  }

  lemma BaseReachable(base: nat)
    ensures Reachable(base, base)
  {
    assert base == Doublings(base, 0);
  }

  /** A fresh block with the first `oldlen` bytes of the old one. */
  method Realloc(buf: array<byte>, oldlen: nat, len: nat) returns (newp: array<byte>)
    requires oldlen <= buf.Length && oldlen <= len
    ensures fresh(newp) && newp.Length == len && newp[..oldlen] == buf[..oldlen]
  {
    newp := new byte[len];
    var i := 0;
    while i < oldlen
      invariant i <= oldlen && newp[..i] == buf[..i]
    {
      newp[i] := buf[i];
      i := i + 1;
    }
  }

  /** Copies a whole chunk to offset `at`. */
  method CopyInto(buf: array<byte>, at: nat, chunk: seq<byte>)
    requires at + |chunk| <= buf.Length
    modifies buf
    ensures buf[..at + |chunk|] == old(buf[..at]) + chunk
    ensures forall k :: at + |chunk| <= k < buf.Length ==> buf[k] == old(buf[k])
  {
    var i := 0;
    while i < |chunk|
      invariant i <= |chunk|
      invariant buf[..at + i] == old(buf[..at]) + chunk[..i]
      invariant forall k :: at + i <= k < buf.Length ==> buf[k] == old(buf[k])
    {
      buf[at + i] := chunk[i];
      assert buf[..at + i + 1] == buf[..at + i] + [chunk[i]];
      assert chunk[..i + 1] == chunk[..i] + [chunk[i]];
      i := i + 1;
    }
    assert chunk[..i] == chunk;
  }
}
