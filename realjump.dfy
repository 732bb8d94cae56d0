/**
 The MBR boot routine of the realjump library: check the boot signature of a
 512-byte sector, stage the sector at the legacy load address 0x7c00 and the
 real-mode trampoline at 0x500 in identity-mapped low memory, then jump to the
 trampoline, which never comes back.

 Physical memory is an array of bytes indexed by physical address; the
 trampoline blob, built ahead of time, is an arbitrary byte sequence here.
 The jump itself is not executed: the routine reports the address it jumps to.
 */
module Realjump {
  import opened PhysMem

  /** Size of a boot sector, the type `[u8; 512]` of the routine's argument. */
  const SECTOR_SIZE: nat := 512
  /** Offsets and values of the two boot-signature bytes. */
  const MAGIC_LO_OFFSET: nat := 510
  const MAGIC_HI_OFFSET: nat := 511
  const MAGIC_LO: Byte := 0x55
  const MAGIC_HI: Byte := 0xaa
  /** Where the trampoline is copied. */
  const CODE_DEST: nat := 0x500
  /** Where the boot sector is copied, the legacy MBR load address. */
  const MBR_DEST: nat := 0x7c00
  /** The address the final jump goes to (a literal of its own in the jump). */
  const JUMP_TARGET: nat := 0x500
  /** Size of the low memory the caller must have identity-mapped. */
  const LOW_MEMORY_SIZE: nat := 0x10_0000

  /** The library's error type. */
  datatype Error = InvalidMagic

  /** `Result<(), Error>`, the declared return type of the routine. */
  datatype Result = Ok | Err(error: Error)

  /** How a call of the routine ends: it returns a `Result` to its caller, or
      it transfers control to an address and never comes back. */
  datatype Outcome = Returned(result: Result) | Jumped(target: nat)

  /** The sector carries the boot signature 0x55, 0xaa at offsets 510 and 511. */
  predicate ValidMagic(mbr: seq<Byte>)
    requires |mbr| == SECTOR_SIZE
  {
    mbr[MAGIC_LO_OFFSET] == MAGIC_LO && mbr[MAGIC_HI_OFFSET] == MAGIC_HI
  }

  /** The trampoline fits between its load address and the end of the
      identity-mapped low memory. */
  predicate FitsLowMemory(code: seq<Byte>) {
    |code| <= LOW_MEMORY_SIZE - CODE_DEST
  }

  /** What a call does: its outcome and the memory it leaves behind, given the
      memory `mem` before the call, the sector `mbr` and the trampoline `code`. */
  function Boot(mem: seq<Byte>, mbr: seq<Byte>, code: seq<Byte>): (r: (Outcome, seq<Byte>))
    requires |mbr| == SECTOR_SIZE && |mem| >= LOW_MEMORY_SIZE && FitsLowMemory(code)
    ensures |r.1| == |mem|
    // the routine never hands back Ok(()): success is a jump
    ensures r.0 != Returned(Ok)
    // the error is reported exactly when a signature byte is wrong
    ensures r.0 == Returned(Err(InvalidMagic)) <==> mbr[510] != 0x55 || mbr[511] != 0xaa
    // a rejected sector leaves memory untouched
    ensures r.0.Returned? ==> r.1 == mem
    // otherwise control goes to where the trampoline was put
    ensures r.0.Jumped? ==> r.0.target == CODE_DEST
    ensures r.0.Jumped? ==> forall i :: 0 <= i < |code| ==> r.1[CODE_DEST + i] == code[i]
    // the sector survives wherever the trampoline did not overwrite it
    ensures r.0.Jumped? ==>
      forall i :: 0 <= i < SECTOR_SIZE && !InWindow(MBR_DEST + i, CODE_DEST, |code|) ==>
        r.1[MBR_DEST + i] == mbr[i]
    // nothing outside the two windows changes
    ensures r.0.Jumped? ==>
      forall k :: 0 <= k < |mem| && !InWindow(k, CODE_DEST, |code|) && !InWindow(k, MBR_DEST, SECTOR_SIZE) ==>
        r.1[k] == mem[k]
  {
    if !ValidMagic(mbr) then
      (Returned(Err(InvalidMagic)), mem)
    else
      (Jumped(JUMP_TARGET), Copy(Copy(mem, mbr, MBR_DEST), code, CODE_DEST))
  }

  /** `boot_mbr`: check the signature before touching memory, copy the sector
      to 0x7c00, then the trampoline to 0x500, then jump to 0x500. */
  method BootMbr(mem: array<Byte>, mbr: seq<Byte>, code: seq<Byte>) returns (o: Outcome)
    requires |mbr| == SECTOR_SIZE && mem.Length >= LOW_MEMORY_SIZE && FitsLowMemory(code)
    modifies mem
    ensures (o, mem[..]) == Boot(old(mem[..]), mbr, code)
  {
    if mbr[MAGIC_LO_OFFSET] != MAGIC_LO || mbr[MAGIC_HI_OFFSET] != MAGIC_HI {
      return Returned(Err(InvalidMagic));
    }
    CopyInto(mem, mbr, MBR_DEST);
    CopyInto(mem, code, CODE_DEST);
    o := Jumped(JUMP_TARGET);
  }

  /** A call writes only inside the identity-mapped low megabyte: every byte
      at or above 1 MiB is left as it was. */
  lemma WritesStayInLowMemory(mem: seq<Byte>, mbr: seq<Byte>, code: seq<Byte>)
    requires |mbr| == SECTOR_SIZE && |mem| >= LOW_MEMORY_SIZE && FitsLowMemory(code)
    ensures Boot(mem, mbr, code).1[LOW_MEMORY_SIZE..] == mem[LOW_MEMORY_SIZE..]
  {
  }

  /** A trampoline that ends at or below 0x7c00 leaves the whole sector in
      place after a successful call. */
  lemma MbrIntactWithoutOverlap(mem: seq<Byte>, mbr: seq<Byte>, code: seq<Byte>)
    requires |mbr| == SECTOR_SIZE && |mem| >= LOW_MEMORY_SIZE && FitsLowMemory(code)
    requires ValidMagic(mbr)
    requires CODE_DEST + |code| <= MBR_DEST
    ensures Boot(mem, mbr, code).1[MBR_DEST..MBR_DEST + SECTOR_SIZE] == mbr
  {
  }

  /** The copies are made in a fixed order, the sector first: where a longer
      trampoline reaches into the sector's window, the trampoline's bytes are
      the ones left in memory. */
  lemma TrampolineWinsOnOverlap(mem: seq<Byte>, mbr: seq<Byte>, code: seq<Byte>, k: nat)
    requires |mbr| == SECTOR_SIZE && |mem| >= LOW_MEMORY_SIZE && FitsLowMemory(code)
    requires ValidMagic(mbr)
    requires InWindow(k, MBR_DEST, SECTOR_SIZE) && InWindow(k, CODE_DEST, |code|)
    ensures Boot(mem, mbr, code).1[k] == code[k - CODE_DEST]
  {
  }

  /** The order of the two copies is observable: when an overlapping byte of
      the trampoline differs from the sector's, copying the trampoline first
      would leave a different memory than the routine does. */
  lemma OrderMatters(mem: seq<Byte>, mbr: seq<Byte>, code: seq<Byte>, k: nat)
    requires |mbr| == SECTOR_SIZE && |mem| >= LOW_MEMORY_SIZE && FitsLowMemory(code)
    requires ValidMagic(mbr)
    requires InWindow(k, MBR_DEST, SECTOR_SIZE) && InWindow(k, CODE_DEST, |code|)
    requires code[k - CODE_DEST] != mbr[k - MBR_DEST]
    ensures Boot(mem, mbr, code).1 != Copy(Copy(mem, code, CODE_DEST), mbr, MBR_DEST)
  {
    var first := Copy(mem, code, CODE_DEST);
    CopyAt(first, mbr, MBR_DEST, k);
    CopyAt(Copy(mem, mbr, MBR_DEST), code, CODE_DEST, k);
    DifferAt(Boot(mem, mbr, code).1, Copy(first, mbr, MBR_DEST), k);
  }
}
