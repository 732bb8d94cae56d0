/**
 Physical memory as seen by the boot routine: a flat array of bytes indexed by
 physical address, and the overlap-safe block copy (`core::ptr::copy`, a
 memmove) that the routine uses to stage bytes in it.

 The source of a copy is taken as a value (a snapshot of the bytes read), which
 is exactly memmove's guarantee: the destination ends up holding the source
 bytes as they were before the copy started.
 */
module PhysMem {

  /** An unsigned 8-bit value (Rust's `u8`). */
  newtype Byte = b: int | 0 <= b < 0x100

  /** Address `k` lies in the half-open window `[start, start + len)`. */
  predicate InWindow(k: int, start: nat, len: nat) {
    start <= k < start + len
  }

  /** The memory `mem` after `src` has been copied to address `dest`: the window
      `[dest, dest + |src|)` holds `src`, every other byte is as before. */
  function Copy(mem: seq<Byte>, src: seq<Byte>, dest: nat): (r: seq<Byte>)
    requires dest + |src| <= |mem|
    ensures |r| == |mem|
    ensures forall i :: 0 <= i < |src| ==> r[dest + i] == src[i]
    ensures forall k :: 0 <= k < |mem| && !InWindow(k, dest, |src|) ==> r[k] == mem[k]
  {
    mem[..dest] + src + mem[dest + |src|..]
  }

  /** The byte a copy leaves at one address of its window. */
  lemma CopyAt(mem: seq<Byte>, src: seq<Byte>, dest: nat, k: nat)
    requires dest + |src| <= |mem| && InWindow(k, dest, |src|)
    ensures Copy(mem, src, dest)[k] == src[k - dest]
  {
    assert Copy(mem, src, dest)[dest + (k - dest)] == src[k - dest];
  }

  /** Two memories that disagree at one address are different. */
  lemma DifferAt(a: seq<Byte>, b: seq<Byte>, k: nat)
    requires k < |a| && k < |b| && a[k] != b[k]
    ensures a != b
  {
  }

  /** Byte-at-a-time reference definition of a copy: write `src[0]` at `dest`,
      then the rest of `src` from `dest + 1` on. */
  function WriteBytes(mem: seq<Byte>, src: seq<Byte>, dest: nat): (r: seq<Byte>)
    requires dest + |src| <= |mem|
    ensures |r| == |mem|
    decreases |src|
  {
    if src == [] then mem else WriteBytes(mem[dest := src[0]], src[1..], dest + 1)
  }

  /** Writing the bytes one after the other gives the same memory as the block
      copy: the window holds `src` and nothing outside it changes. */
  lemma {:induction false} WriteBytesIsCopy(mem: seq<Byte>, src: seq<Byte>, dest: nat)
    requires dest + |src| <= |mem|
    ensures WriteBytes(mem, src, dest) == Copy(mem, src, dest)
    decreases |src|
  {
    if src != [] {
      var mem' := mem[dest := src[0]];
      WriteBytesIsCopy(mem', src[1..], dest + 1);
      var r := Copy(mem', src[1..], dest + 1);
      var c := Copy(mem, src, dest);
      forall k | 0 <= k < |mem|
        ensures r[k] == c[k]
      {
        if k == dest {
          assert !InWindow(k, dest + 1, |src| - 1);
        } else if InWindow(k, dest, |src|) {
          assert r[(dest + 1) + (k - dest - 1)] == src[1..][k - dest - 1];
          assert c[dest + (k - dest)] == src[k - dest];
        }
      }
      assert r == c;
    }
  }

  /** Models `core::ptr::copy(src, dest, src.len())` into the physical memory
      `mem`: the bytes of `src` are stored at `dest`, `dest + 1`, ... in turn. */
  method CopyInto(mem: array<Byte>, src: seq<Byte>, dest: nat)
    requires dest + |src| <= mem.Length
    modifies mem
    ensures mem[..] == Copy(old(mem[..]), src, dest)
  {
    var i := 0;
    while i < |src|
      invariant 0 <= i <= |src|
      invariant WriteBytes(mem[..], src[i..], dest + i) == WriteBytes(old(mem[..]), src, dest)
    {
      ghost var before := mem[..];
      mem[dest + i] := src[i];
      assert mem[..] == before[dest + i := src[i]];
      assert src[i..][1..] == src[i + 1..];
      i := i + 1;
    }
    assert src[i..] == [];
    WriteBytesIsCopy(old(mem[..]), src, dest);
  }
}
