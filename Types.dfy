/** Value types shared by the components of the CHIP-8 model. */
module Types {

  /** A C++ `unsigned int` on the targets the emulator is built for (32 bits). */
  type u32 = x: int | 0 <= x < 0x1_0000_0000

  /** A possibly absent value; `None` stands for a null pointer. */
  datatype Option<+T> = None | Some(value: T)
}
