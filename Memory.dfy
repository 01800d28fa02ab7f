/**
 * The CHIP-8 memory: a 4096-byte store, sixteen 8-bit registers V0..VF and
 * the address register I. Every accessor checks its index and reports
 * success; a rejected access changes nothing.
 */
module Memory {
  import opened Types
  import Fonts

  const MaxAddress: int := 4096
  /** Where programs are loaded; everything below is reserved (fonts live at 0). */
  const StartAddress: int := 0x200
  const FirstRegisterAddress: bv8 := 0x0
  const LastRegisterAddress: bv8 := 0xF
  const RegisterCount: int := 16

  predicate ValidAddress(address: u32) {
    address < MaxAddress
  }

  predicate ValidRegisterAddress(reg: bv8) {
    reg >= FirstRegisterAddress && reg <= LastRegisterAddress
  }

  /**
   * `getFontAddress`: fonts are loaded at address 0, one `SpriteHeight`-byte
   * glyph after the other, so the address names glyph slot `hex`.
   */
  function FontAddress(hex: bv8): (a: u32)
    ensures a % Fonts.SpriteHeight == 0
    ensures a / Fonts.SpriteHeight == hex as int
  {
    0x0 + hex as int * Fonts.SpriteHeight
  }

  /**
   * The sixteen digit glyphs occupy disjoint, consecutive slots in increasing
   * digit order, all inside the reserved area below `StartAddress`.
   */
  lemma FontAddressesDisjoint(h: bv8, g: bv8)
    requires h < g <= 0xF
    ensures FontAddress(h) + Fonts.SpriteHeight <= FontAddress(g)
    ensures FontAddress(g) + Fonts.SpriteHeight <= StartAddress
  {
  }

  class Memory {
    const memory: array<bv8>
    const registers: array<bv8>
    var addressRegister: u32

    ghost predicate Valid() {
      memory.Length == MaxAddress && registers.Length == RegisterCount && memory != registers
    }

    /**
     * The constructor body is empty; the single instance lives in static
     * storage, which C++ zero-initialises.
     */
    constructor ()
      ensures Valid() && fresh(memory) && fresh(registers)
      ensures forall a :: 0 <= a < MaxAddress ==> memory[a] == 0
      ensures forall r :: 0 <= r < RegisterCount ==> registers[r] == 0
      ensures addressRegister == 0
    {
      memory := new bv8[MaxAddress](_ => 0);
      registers := new bv8[RegisterCount](_ => 0);
      addressRegister := 0;
    }

    /**
     * `read(address, byte)`: on success the out-parameter receives the stored
     * byte; on failure it keeps the value `byte` it had before the call.
     */
    method Read(address: u32, byte: bv8) returns (ok: bool, result: bv8)
      requires Valid()
      ensures ok <==> address < MaxAddress
      ensures ok ==> result == memory[address]
      ensures !ok ==> result == byte
    {
      ok, result := false, byte;
      if ValidAddress(address) {
        ok, result := true, memory[address];
      }
    }

    /** `write(address, byte)`: stores one byte, or changes nothing when out of range. */
    method Write(address: u32, byte: bv8) returns (ok: bool)
      requires Valid()
      modifies memory
      ensures Valid()
      ensures ok <==> address < MaxAddress
      ensures memory[..] == if ok then old(memory[..])[address := byte] else old(memory[..])
      ensures registers[..] == old(registers[..]) && addressRegister == old(addressRegister)
    {
      if ValidAddress(address) {
        memory[address] := byte;
        return true;
      }
      return false;
    }

    /** `setRegister(reg, data)`: writes V`reg`, or changes nothing for `reg` above 0xF. */
    method SetRegister(reg: bv8, data: bv8) returns (ok: bool)
      requires Valid()
      modifies registers
      ensures Valid()
      ensures ok <==> reg <= 0xF
      ensures registers[..] == if ok then old(registers[..])[reg as int := data] else old(registers[..])
      ensures memory[..] == old(memory[..]) && addressRegister == old(addressRegister)
    {
      if ValidRegisterAddress(reg) {
        registers[reg] := data;
        return true;
      }
      return false;
    }

    /** `getRegister(reg, data)`: like `Read`, over the register file. */
    method GetRegister(reg: bv8, data: bv8) returns (ok: bool, result: bv8)
      requires Valid()
      ensures ok <==> reg <= 0xF
      ensures ok ==> result == registers[reg]
      ensures !ok ==> result == data
    {
      ok, result := false, data;
      if ValidRegisterAddress(reg) {
        ok, result := true, registers[reg];
      }
    }

    /** `setI`: stores any 32-bit value; no range check is applied. */
    method SetI(data: u32)
      modifies this`addressRegister
      ensures addressRegister == data
    {
      addressRegister := data;
    }

    /** `getI`: the value last stored by `SetI`. */
    method GetI() returns (r: u32)
      ensures r == addressRegister
    {
      return addressRegister;
    }

    /** A successful write is seen by the next read of the same address. */
    method WriteThenRead(address: u32, byte: bv8, prior: bv8) returns (written: bool, read: bool, result: bv8)
      requires Valid()
      modifies memory
      ensures Valid()
      ensures written <==> address < MaxAddress
      ensures read == written
      ensures result == if written then byte else prior
    {
      written := Write(address, byte);
      read, result := Read(address, prior);
    }

    /** A successful `setRegister` is seen by the next `getRegister`. */
    method SetThenGetRegister(reg: bv8, data: bv8, prior: bv8) returns (stored: bool, loaded: bool, result: bv8)
      requires Valid()
      modifies registers
      ensures Valid()
      ensures stored <==> reg <= 0xF
      ensures loaded == stored
      ensures result == if stored then data else prior
    {
      stored := SetRegister(reg, data);
      loaded, result := GetRegister(reg, prior);
    }
  }
}
