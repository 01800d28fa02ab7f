/**
 * The CPU skeleton: only program-counter stepping exists; the opcode
 * dispatch is empty and the address decoder is a stub.
 */
module Cpu {
  import opened Types

  /** Entries of the call stack. */
  const StackSize: int := 16

  /** `extractAddress` is a stub: it yields 0 whatever the two instruction bytes are. */
  function ExtractAddress(upper: bv8, lower: bv8): (address: u32)
    ensures address == 0
  {
    0
  }

  class Cpu {
    var pc: int
    var sp: int
    const stack: array<u32>

    /**
     * The C++ constructor sets nothing, and the only instance is a
     * function-local static, so `_pc`, `_sp` and `_stack` start at 0. The
     * stack is zeroed here; the model generalises over the start values of
     * `pc` and `sp`, which are whatever the caller passes.
     */
    constructor (pc0: int, sp0: int)
      ensures pc == pc0 && sp == sp0
      ensures fresh(stack) && stack.Length == StackSize
      ensures forall e :: 0 <= e < StackSize ==> stack[e] == 0
    {
      pc, sp := pc0, sp0;
      stack := new u32[StackSize](_ => 0);
    }

    /**
     * `fetch`: advances the program counter by one. The memory read is still
     * commented out and `fetch` has no `return` (src/Cpu.cpp:17-22), which is
     * undefined behaviour in C++; the model assumes it returns normally with
     * an arbitrary byte.
     */
    method Fetch() returns (b: bv8)
      modifies this
      ensures pc == old(pc) + 1 && sp == old(sp)
    {
      b := *;
      pc := pc + 1;
    }

    /**
     * `step`: fetches the two bytes of an instruction and decodes its
     * address; the opcode `switch` has no cases, so only `pc` changes.
     */
    method Step()
      modifies this
      ensures pc == old(pc) + 2 && sp == old(sp)
      ensures stack[..] == old(stack[..])
    {
      var upper := Fetch();
      var lower := Fetch();
      var address := ExtractAddress(upper, lower);
    }
  }
}
