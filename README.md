# realjump: staging an MBR in low memory, in Dafny

realjump is a `no_std` Rust library that lets a 64-bit kernel drop back to
16-bit real mode and run a legacy boot sector. Its one operation is
`boot_mbr` (src/lib.rs:21-37). It runs in four steps:

1. It checks the boot signature: bytes 510 and 511 must be `0x55, 0xaa`.
   If they are not, it returns `Err(Error::InvalidMagic)`.
2. It copies the 512-byte sector to physical address `0x7c00`.
3. It copies the prebuilt trampoline blob `redpill.bin` to physical address `0x500`.
4. It jumps to `0x500`. It never comes back.

This project models that routine and proves what it does to memory.

- `physmem.dfy`, module `PhysMem`: physical memory as an `array<Byte>` indexed
  by physical address. `core::ptr::copy` is the method `CopyInto`, a loop that
  stores the source bytes one after another. It is proved against two
  definitions of a copy: a splice (`Copy`) and a byte-at-a-time recursive one
  (`WriteBytes`). A lemma proves the two are equal.
- `realjump.dfy`, module `Realjump`: the error type and the routine. `BootMbr`
  is the routine as a method over the memory array. Its contract ties the
  outcome and the new memory to the function `Boot`. The contract of `Boot`
  states the routine's properties:
  - The error comes back exactly when a signature byte is wrong.
  - A rejected sector leaves memory untouched, because the check comes before
    any write.
  - The trampoline window holds the trampoline.
  - The sector window holds the sector wherever the trampoline does not reach.
  - Every other byte is unchanged.
  - Control goes to the trampoline's address.
  - The routine never returns `Ok(())`.

  Lemmas cover three further facts. The copy order decides overlapping bytes:
  the trampoline's bytes win. A trampoline that ends at or below `0x7c00`
  leaves the whole sector intact. A call changes no byte at or above 1 MiB.

How the model is set up:

- The caller must identity-map the lowest 1 MiB (src/lib.rs:17-19). The model
  states this as the memory array having at least `0x10_0000` bytes.
- `redpill.bin` is an arbitrary byte sequence `code`. The model requires
  `len(code) <= 0x10_0000 - 0x500`, so that the blob fits in that megabyte.
- The inline `asm!` jump (src/lib.rs:34) is modelled as the outcome
  `Jumped(0x500)`. The declared return type `Result<(), Error>` is modelled as
  `Returned(...)`. Success is therefore a jump, never a return.

src/lib.rs has one error variant, `InvalidMagic`. It has no size check, no
overlap check and no entrypoint patching, and it jumps straight to `0x500`.

## Model

| member | source | states |
|---|---|---|
| PhysMem.Copy | src/lib.rs:31-32 | after copying `src` to `dest`, the window `[dest, dest+len(src))` holds `src` byte for byte, and every byte outside it is unchanged; the length of memory is unchanged |
| PhysMem.WriteBytesIsCopy | src/lib.rs:31-32 | storing the source bytes one at a time, from the lowest address up, leaves the same memory as the block copy |
| PhysMem.CopyInto | src/lib.rs:31-32 | the loop stores each source byte at its destination and leaves memory equal to `Copy` of the old memory |
| Realjump.Boot | src/lib.rs:21-36 | never `Ok(())`; `Err(InvalidMagic)` if and only if `mbr[510] != 0x55 or mbr[511] != 0xaa`, and then memory is unchanged; otherwise a jump to `0x500`, the trampoline's load address, with `[0x500, 0x500+len(code))` holding `code`, each sector byte at `0x7c00+i` that the trampoline does not cover still holding `mbr[i]`, and every byte outside both windows unchanged |
| Realjump.BootMbr | src/lib.rs:21-36 | the method checks the signature first, then copies the sector and then the trampoline into the memory array; its outcome and the new memory are exactly `Boot` of the old memory |
| Realjump.WritesStayInLowMemory | src/lib.rs:17-20 | a call, successful or not, leaves every byte at or above `0x10_0000` unchanged, so it writes only inside the identity-mapped lowest 1 MiB |
| Realjump.MbrIntactWithoutOverlap | src/lib.rs:26-32 | if `0x500 + len(code) <= 0x7c00`, a successful call leaves `[0x7c00, 0x7e00)` equal to the whole sector |
| Realjump.TrampolineWinsOnOverlap | src/lib.rs:31-32 | at an address in both windows, memory holds the trampoline's byte after a successful call, because the trampoline is copied second |
| Realjump.OrderMatters | src/lib.rs:31-32 | if an overlapping trampoline byte differs from the sector byte at that address, copying in the opposite order would leave different memory, so the order of the copies is observable |

## Left out

- The inline `asm!` jump and the switch to real mode (src/lib.rs:34) are processor-mode control. They are modelled only as the returned `Jumped(0x500)` outcome. What the trampoline does after the jump is not modelled, and neither is the `unreachable!()` after it (src/lib.rs:36).
- The contents of `redpill.bin` (src/lib.rs:29) come from a build step. They are an arbitrary byte-sequence parameter.
- Disabling interrupts and identity-mapping memory are caller duties (src/lib.rs:17-20). Identity mapping is stated as the size of the memory array. Disabling interrupts, and the absence of other processors touching memory, are not modelled: the model is single-threaded.
- Realjump.BootMbr, Realjump.Boot and the lemmas about Boot: require `len(code) <= 0x10_0000 - 0x500`. The Rust code has no such check. A larger blob would write past the identity-mapped megabyte, which the array model cannot express.
- Aliasing is not modelled. The sector and the blob are taken as values, read before they are copied. For the sector this is exact: only the first copy reads it, and memmove copies correctly even when the source overlaps the destination. Only a `redpill.bin` stored inside `[0x7c00, 0x7e00)` could be overwritten by the first copy before the second copy reads it. The model does not cover that case.
- `core::ptr::copy` does not specify the order in which it stores bytes. `CopyInto` stores them from the lowest address up. Only the final memory is specified, and that final memory does not depend on the store order.
- build.rs and test-os/build.rs (assembling with `nasm`, cargo directives) are build plumbing. test-os/src/main.rs is a test kernel with a panic handler and has no logic of its own to model.
