/** The byte-block operations of mpack-platform.c. */
module Memory {
  import opened Bytes

  /** `block` with `data` written at `at`. */
  function Overwritten(block: bytes, at: nat, data: bytes): (r: bytes)
    requires at + |data| <= |block|
    ensures |r| == |block|
  {
    block[..at] + data + block[at + |data|..]
  }

  lemma OverwrittenTwice(block: bytes, at: nat, x: bytes, y: bytes)
    requires at + |x| + |y| <= |block|
    ensures Overwritten(Overwritten(block, at, x), at + |x|, y) == Overwritten(block, at, x + y)
  {
  }

  lemma OverwrittenPrefix(block: bytes, at: nat, data: bytes)
    requires at + |data| <= |block|
    ensures Overwritten(block, at, data)[..at] == block[..at]
    ensures Overwritten(block, at, data)[..at + |data|] == block[..at] + data
    ensures Overwritten(block, at, data)[at..at + |data|] == data
  {
  }

  lemma OverwrittenNothing(block: bytes, at: nat)
    requires at <= |block|
    ensures Overwritten(block, at, []) == block
  {
  }

  /** mpack_memcpy from a separate block. */
  method Memcpy(dst: array<byte>, at: nat, data: bytes)
    requires at + |data| <= dst.Length
    modifies dst
    ensures dst[..] == Overwritten(old(dst[..]), at, data)
  {
    var n := 0;
    while n < |data|
      invariant n <= |data|
      invariant forall i | 0 <= i < dst.Length :: dst[i] == if at <= i < at + n then data[i - at] else old(dst[i])
    {
      dst[at + n] := data[n];
      n := n + 1;
    }
  }

  /** mpack_memmove inside one block: the regions may overlap. */
  method Memmove(block: array<byte>, to: nat, from: nat, n: nat)
    requires to + n <= block.Length && from + n <= block.Length
    modifies block
    ensures block[..] == Overwritten(old(block[..]), to, old(block[from..from + n]))
  {
    if from < to < from + n {
      MoveDown(block, to, from, n);
    } else {
      MoveUp(block, to, from, n);
    }
  }

  lemma Moved(was: bytes, now: bytes, to: nat, from: nat, n: nat)
    requires |now| == |was| && to + n <= |was| && from + n <= |was|
    requires forall i | 0 <= i < to || to + n <= i < |was| :: now[i] == was[i]
    requires forall i | to <= i < to + n :: now[i] == was[from + (i - to)]
    ensures now == Overwritten(was, to, was[from..from + n])
  {
  }

  method MoveDown(block: array<byte>, to: nat, from: nat, n: nat)
    requires from < to && to + n <= block.Length
    modifies block
    ensures block[..] == Overwritten(old(block[..]), to, old(block[from..from + n]))
  {
    ghost var was := block[..];
    var k := n;
    while k != 0
      invariant 0 <= k <= n
      invariant forall i | 0 <= i < to + k || to + n <= i < block.Length :: block[i] == was[i]
      invariant forall i | to + k <= i < to + n :: block[i] == was[from + (i - to)]
    {
      k := k - 1;
      block[to + k] := block[from + k];
    }
    Moved(was, block[..], to, from, n);
  }

  method MoveUp(block: array<byte>, to: nat, from: nat, n: nat)
    requires to + n <= block.Length && from + n <= block.Length && !(from < to < from + n)
    modifies block
    ensures block[..] == Overwritten(old(block[..]), to, old(block[from..from + n]))
  {
    ghost var was := block[..];
    var k := 0;
    while k != n
      invariant 0 <= k <= n
      invariant forall i | 0 <= i < to || to + k <= i < block.Length :: block[i] == was[i]
      invariant forall i | to <= i < to + k :: block[i] == was[from + (i - to)]
    {
      block[to + k] := block[from + k];
      k := k + 1;
    }
    Moved(was, block[..], to, from, n);
  }

  /** The order of byte blocks of one length: the sign of the first difference. */
  function Compare(a: bytes, b: bytes): int
    requires |a| == |b|
  {
    if a == [] then 0
    else if a[0] != b[0] then if a[0] < b[0] then -1 else 1
    else Compare(a[1..], b[1..])
  }

  /** mpack_memcmp */
  method Memcmp(a: bytes, b: bytes, n: nat) returns (r: int)
    requires n <= |a| && n <= |b|
    ensures r == Compare(a[..n], b[..n])
  {
    var k := 0;
    while k < n
      invariant k <= n && Compare(a[..n], b[..n]) == Compare(a[k..n], b[k..n])
    {
      if a[k] != b[k] {
        return if a[k] < b[k] then -1 else 1;
      }
      assert a[k..n][1..] == a[k + 1..n] && b[k..n][1..] == b[k + 1..n];
      k := k + 1;
    }
    return 0;
  }

  lemma {:induction false} CompareEqual(a: bytes, b: bytes)
    requires |a| == |b|
    ensures Compare(a, b) == 0 <==> a == b
  {
    if a != [] && a[0] == b[0] {
      CompareEqual(a[1..], b[1..]);
      assert a == [a[0]] + a[1..] && b == [b[0]] + b[1..];
    }
  }

  lemma {:induction false} CompareAntisymmetric(a: bytes, b: bytes)
    requires |a| == |b|
    ensures Compare(b, a) == -Compare(a, b)
  {
    if a != [] && a[0] == b[0] {
      CompareAntisymmetric(a[1..], b[1..]);
    }
  }

  lemma {:induction false} CompareTransitive(a: bytes, b: bytes, c: bytes)
    requires |a| == |b| == |c| && Compare(a, b) <= 0 && Compare(b, c) <= 0
    ensures Compare(a, c) <= 0
  {
    if a != [] && a[0] == b[0] == c[0] {
      CompareTransitive(a[1..], b[1..], c[1..]);
    }
  }

  /** The first difference decides: the block with the smaller byte there comes first. */
  lemma {:induction false} CompareByIndex(a: bytes, b: bytes, i: nat)
    requires i < |a| == |b| && a[..i] == b[..i] && a[i] != b[i]
    ensures Compare(a, b) == if a[i] < b[i] then -1 else 1
  {
    if i > 0 {
      assert a[..i][0] == a[0] && b[..i][0] == b[0];
      assert a[1..][..i - 1] == a[..i][1..] && b[1..][..i - 1] == b[..i][1..];
      CompareByIndex(a[1..], b[1..], i - 1);
    }
  }
}
