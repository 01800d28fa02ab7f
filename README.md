# A Dafny model of the cdettmering CHIP-8 emulator core

This project models the byte-level components of an early-stage CHIP-8
emulator written in C++, and proves what they do:

- the memory: 4096 bytes, sixteen registers V0..VF and the address register I,
  with bounds-checked accessors;
- the display: the sprite compositing that XORs a sprite into a 64x32
  one-byte-per-pixel buffer and raises VF on a collision, and the conversion
  to the presentation buffer;
- `bitQuery`, the bit helper the display uses;
- the delay and sound timers;
- the sixteen font glyphs and their lazily filled table;
- the keypad's scancode table, key validation and translation;
- the CPU skeleton, of which only program-counter stepping exists.

One Dafny module models each source file: `BitUtils`, `Memory`, `Video`,
`Timers`, `Fonts`, `Input` and `Cpu`. `Types` holds `u32`, the C++ `unsigned
int`, and `Option`, which stands for a possibly null pointer. `unsigned char`
is `bv8`, and the colour values are `bv32`.

Objects whose fields the C++ code updates are classes:

- `Memory.Memory` has two `array<bv8>` fields and the field `addressRegister`.
- `Video.Video` has the `data` and `pixels` arrays.
- `Timers.Timers` has `dt` and `st`.
- `Fonts.Fonts` has the glyph table as a `seq`.
- `Cpu.Cpu` has `pc`, `sp` and the stack array.

The display methods and `Timers.Timers.Step` are proved against specification functions:

- `Drawn`: the buffer after a sprite is drawn;
- `Collides`: some cell goes from 1 to 0 while drawing, the condition for VF := 1;
- `Presented`: the presentation buffer after `copyDataToPixels`;
- `Tick`: one step of a timer, which `Timers.Timers.Step` applies to each timer.

The lemmas `TicksSaturate`, `TicksNeverIncrease` and `TicksCompose` are about
`Ticks`, the `k`-fold iteration of `Tick`.

The accessors of `Memory.Memory` and `Timers.Timers` and the methods of
`Cpu.Cpu` state their effect on the arrays and fields directly.

`drawSprite` is written as two nested loops. The inner loop is `DrawRow` with
`XorPixel` as its body.

- The outer loop is carried by `Drawn(d0, x, y, sprite, j)` and
  `Collides(d0, x, y, sprite, j)`. The first `j` rows of a sprite are
  themselves a `j`-row sprite.
- The inner loop is carried by `RowDrawn` and `ErasesInRow`.

### Behaviour the code has, reproduced as written

- `bitQuery(d, b)` computes `(d >> b) | 1`, because the shift binds tighter
  than the OR. The result is always odd and never 0, and it does not depend on
  bit `b` itself (`BitQueryIgnoresQueriedBit`).
- Because of that, `drawSprite` XORs an odd value into every touched cell.
  - A touched blank cell always becomes odd, so it never stays 0
    (`DrawLightsBlankCells`). Only the cells that become exactly 1 are shown
    in the on colour; a cell that becomes 3 keeps its old pixel
    (`BlankDrawHidden`).
  - The buffer stops being 0/1 (`DrawnNotBinary`).
  - A cell is erased exactly when it held 1 and the value XORed into it is 1
    (`CollisionIff`).
  - For an unclipped sprite of at least one row on a blank screen, the first
    draw never collides and drawing it a second time always collides
    (`BlankDrawTwice`).
  - `copyDataToPixels` leaves the presentation pixel of any cell that is
    neither 0 nor 1 unchanged (`PresentedKeepsUnknown`).
- `drawSprite` does not wrap. It returns before drawing anything when the
  sprite touches or crosses an edge: `x + 8 >= 64` or `y + height >= 32`.
  Because the guard uses `>=`, column 63 and row 31 can never be drawn: an
  accepted sprite has `x <= 55` and `y + height <= 31`
  (`LastColumnAndRowNeverDrawn`).
- VF is only ever set to 1 by `drawSprite`, never cleared.
- `isValidKey` accepts keys below 0xF only, so key 0xF is rejected.
- `toHex` searches indices 0 to 0xE only, so `KeyF` is never translated.
- `extractAddress` always returns 0. `fetch` only increments the program
  counter. It has no `return` (src/Cpu.cpp:17-22), which is undefined
  behaviour in C++; the model assumes it returns normally with an arbitrary
  byte.

### Where the code differs from standard CHIP-8 behaviour

This model follows the code in each case.

- Sprites:
  - Standard CHIP-8 wraps sprite coordinates around the screen. The code
    rejects the whole sprite instead, by returning early.
  - Standard CHIP-8 draws each sprite bit as a pixel value. The code XORs the
    value of `bitQuery` as above.
  - Standard CHIP-8 sets VF to 0 after a draw without a collision. The code
    never writes 0 to VF.
- The CHIP-8 keypad has keys 0x0 to 0xF. The code's `isValidKey` rejects 0xF.
- Fetching: the doc comment of `fetch` at include/Cpu.hpp:24-27 says it
  fetches the next byte from the ROM. The code reads nothing and checks
  nothing; it only increments the program counter.

## Model

| member | source | states |
|---|---|---|
| BitUtils.BitQuery | src/BitUtils.cpp:5-8 | the result's low bit is 1, so it is never 0; for `bit < 8` it is at least `data >> bit`; `bitQuery(d, 7)` (and any larger bit) is 1; `bitQuery(d, 0)` is `d` exactly when `d` is odd |
| BitUtils.BitQueryIgnoresQueriedBit | src/BitUtils.cpp:7 | flipping the queried bit of `data` does not change the result |
| BitUtils.BitQueryIsOneIff | src/BitUtils.cpp:7 | the result is 1 exactly when `data >> bit <= 1` |
| Memory.FontAddress | src/Memory.cpp:68-72 | the font address of `hex` is a multiple of `SpriteHeight` whose quotient is `hex`, i.e. `5 * hex` |
| Memory.FontAddressesDisjoint | src/Memory.cpp:68-72 | for digits `h < g <= 0xF` the 5-byte glyph slots do not overlap and all lie below `StartAddress` 0x200 |
| Memory.ValidAddress | src/Memory.cpp:74-77 | an address is valid iff it is below `MaxAddress` 4096 |
| Memory.ValidRegisterAddress | src/Memory.cpp:79-82 | a register index is valid iff it lies in 0x0..0xF |
| Memory.Memory.constructor | src/Memory.cpp:11-14 | memory, registers and I start at 0 (static storage is zero-initialised) |
| Memory.Memory.Read | src/Memory.cpp:22-29 | succeeds iff `address < 4096`, then yields the stored byte; otherwise the out-parameter keeps its prior value |
| Memory.Memory.Write | src/Memory.cpp:31-38 | succeeds iff `address < 4096`; a success changes exactly cell `address`, a failure no cell; registers and I are unchanged |
| Memory.Memory.SetRegister | src/Memory.cpp:40-47 | succeeds iff `reg <= 0xF`; a success changes exactly V`reg`, a failure no register; memory and I are unchanged |
| Memory.Memory.GetRegister | src/Memory.cpp:49-56 | succeeds iff `reg <= 0xF`, then yields V`reg`; otherwise the out-parameter keeps its prior value |
| Memory.Memory.SetI | src/Memory.cpp:58-61 | I becomes any given 32-bit value, with no range check |
| Memory.Memory.GetI | src/Memory.cpp:63-66 | yields the current I |
| Memory.Memory.WriteThenRead | src/Memory.cpp:22-38 | a write reports success iff the address is below 4096, the following read of the same address succeeds alike and yields the written byte |
| Memory.Memory.SetThenGetRegister | src/Memory.cpp:40-56 | set-then-get of a register succeeds iff `reg <= 0xF` and then yields the stored byte |
| Fonts.Sprite | src/Fonts.cpp:6-12 | no sprite (null) iff `hex > 0xF`; otherwise a 5-byte glyph, digit 0 giving `Zero` and digit F giving `F` |
| Fonts.GlyphShapes | src/Fonts.cpp:38-55 | there are 16 glyphs of `SpriteHeight` = 5 bytes, and every byte has a zero low nibble (at most 4 pixels wide) |
| Fonts.GlyphsDistinct | src/Fonts.cpp:38-53 | the 16 glyphs are pairwise distinct |
| Fonts.Fonts.constructor | src/Fonts.cpp:5 | the static table starts empty |
| Fonts.Fonts.GetFonts | src/Fonts.cpp:14-36 | afterwards the table holds exactly the 16 glyphs in push order Zero..F; a full table is not grown; the result is the table |
| Fonts.Fonts.GetSprite | src/Fonts.cpp:6-12 | yields `Sprite(hex)`: null for `hex > 0xF` without touching the table, otherwise glyph `hex` from the filled table |
| Timers.Tick | src/Timers.cpp:37-45 | one step takes a positive timer down by exactly 1 and leaves 0 at 0 |
| Timers.Ticks | src/Timers.cpp:37-45 | `k` steps never raise a timer above its start value, and at least one step lowers a positive timer |
| Timers.TicksSaturate | src/Timers.cpp:37-45 | `k` steps from `t` give `max(t - k, 0)` |
| Timers.TicksNeverIncrease | src/Timers.cpp:37-45 | more steps never give a larger value, and no step exceeds the start value |
| Timers.TicksCompose | src/Timers.cpp:37-45 | `a` steps then `b` steps equal `a + b` steps |
| Timers.Timers.constructor | src/Timers.cpp:5-9 | DT and ST start at 0 |
| Timers.Timers.GetDelayTimer | src/Timers.cpp:17-20 | yields DT |
| Timers.Timers.GetSoundTimer | src/Timers.cpp:22-25 | yields ST |
| Timers.Timers.SetDelayTimer | src/Timers.cpp:27-30 | DT becomes `t`, ST is unchanged |
| Timers.Timers.SetSoundTimer | src/Timers.cpp:32-35 | ST becomes `t`, DT is unchanged |
| Timers.Timers.Step | src/Timers.cpp:37-45 | each timer becomes `Tick` of its old value, independently of the other |
| Timers.Timers.SetThenGetDelayTimer | src/Timers.cpp:17-30 | setting DT and reading it back yields the value set; ST is unchanged |
| Timers.Timers.SetThenGetSoundTimer | src/Timers.cpp:22-35 | setting ST and reading it back yields the value set; DT is unchanged |
| Input.KeysDistinct | src/Input.cpp:9-27 | the 16 scancodes of `Keys` are pairwise distinct and inside the keyboard state array |
| Input.IsKeyDown | src/Input.cpp:41-45 | a key is down iff its entry of the keyboard state is 1 |
| Input.AnyKeyDown | src/Input.cpp:47-66 | one of the sixteen pad scancodes is down; `AnyKeyDownIff` gives its meaning |
| Input.IsValidKey | src/Input.cpp:97-100 | valid iff `key < 0xF`, so 0xF is rejected |
| Input.AnyKeyDownIff | src/Input.cpp:47-66 | `anyKeyDown` holds iff the scancode of some hex key in `Keys` is held |
| Input.ToHex | src/Input.cpp:102-111 | succeeds iff the scancode is one of `Keys[0]..Keys[0xE]`, then yields an index below 0xF naming it; on failure `hex` keeps its prior value |
| Input.TranslationUnique | src/Input.cpp:97-111 | the index found is the only one naming that scancode, and it passes `isValidKey` |
| Input.TranslationCoverage | src/Input.cpp:97-111 | keys 0..0xE are all translatable; `KeyF` is not, and 0xF is not a valid key |
| Cpu.ExtractAddress | src/Cpu.cpp:35-38 | the address is 0 for every pair of bytes |
| Cpu.Cpu.constructor | src/Cpu.cpp:6-15 | the stack has 16 entries, all 0 as in the static instance; `pc` and `sp` are the values given, which generalises their zero start |
| Cpu.Cpu.Fetch | src/Cpu.cpp:17-22 | the program counter increases by exactly 1; the stack pointer is unchanged |
| Cpu.Cpu.Step | src/Cpu.cpp:24-33 | the program counter advances by exactly 2 (two fetches); the stack pointer and the stack are unchanged |
| Video.LastColumnAndRowNeverDrawn | src/Video.cpp:39-47 | no cell that `drawSprite` writes lies in column 63 or row 31, because the guard tests `>=` |
| Video.ScreenIndex | src/Video.cpp:39-47 | once past the guard, every computed screen index `(x+i)+(y+j)*64` lies in `[0, 2048)` |
| Video.Clipped | src/Video.cpp:39 | the guard of `drawSprite`: the sprite starts left of or above the screen, or touches or crosses the right or bottom edge; `NothingDrawn` gives its effect |
| Video.ScreenIndexCoords | src/Video.cpp:47 | the screen index of sprite pixel (i, j) lies in column `x+i` of row `y+j` |
| Video.ScreenIndexOf | src/Video.cpp:47 | a cell of the sprite's rectangle is the screen index of its own column and row offsets |
| Video.PixelBitIs | src/Video.cpp:55 | the bit read for pixel `i` is `SpriteWidth - 1 - i` |
| Video.RowPixels | src/Video.cpp:45-55 | the values the inner loop XORs into a row are eight bytes |
| Video.RowPixelAt | src/Video.cpp:55 | value `i` of row `j` is `bitQuery(sprite[j], 7 - i)` |
| Video.Drawn | src/Video.cpp:36-71 | the drawn buffer keeps the 2048 cells; its cell-by-cell meaning is fixed by the lemmas below |
| Video.Collides | src/Video.cpp:62-66 | some cell goes from 1 to 0 while drawing; `CollisionIff` and `CollidesNextRow` give its meaning |
| Video.RowDrawn | src/Video.cpp:45-57 | a partly drawn row keeps the 2048 cells |
| Video.RowDrawnNext | src/Video.cpp:47-57 | the cell written by iteration `i` still holds its value from the row's start, and the write extends the drawn row by exactly that cell |
| Video.RowDrawnCell | src/Video.cpp:47-57 | iteration `i` changes no cell but its own |
| Video.ErasesInRowNext | src/Video.cpp:62-66 | VF is raised by the first `i+1` values of a row iff by the first `i` or by value `i` turning a 1 into a 0 |
| Video.DrawnNextRow | src/Video.cpp:44-57 | drawing `j+1` rows is drawing `j` rows, then XORing row `j` in |
| Video.CollidesNextRow | src/Video.cpp:44-66 | the first `j+1` rows collide iff the first `j` do or row `j` erases a 1 of the buffer it is drawn into |
| Video.ErasedInRow | src/Video.cpp:62-66 | a cell of row `j` that row `j` takes from 1 to 0 is an erasing value of that row |
| Video.DrawnRowCell | src/Video.cpp:44-57 | a cell of row `j` is untouched by the first `j` rows and receives value `m` from row `j` |
| Video.DrawnOtherCell | src/Video.cpp:44-57 | a cell outside row `j` is the same after `j` and after `j+1` rows |
| Video.Flagged | src/Video.cpp:62-66 | raising VF sets register 0xF to 1 and no other register; without it the registers are unchanged |
| Video.FlaggedTwice | src/Video.cpp:62-66 | raising VF twice is raising it once: the flag only accumulates |
| Video.DrawIndices | src/Video.cpp:47-55 | the code's index expressions are the screen index and, divided by 8, the sprite row `j` |
| Video.Presented | src/Video.cpp:78-95 | the presentation buffer keeps the length of the pixel buffer; a cell holding 1 gets `on`, a cell holding 0 gets `off`, and any other cell keeps its old pixel |
| Video.Blank | src/Video.cpp:16-23 | a buffer of 2048 zero cells |
| Video.NothingDrawn | src/Video.cpp:39-41 | when the guard rejects the sprite, or it has no rows, nothing is drawn and nothing collides |
| Video.DrawOutsideUnchanged | src/Video.cpp:44-57 | cells outside the 8 by `height` rectangle at (x, y) are unchanged |
| Video.DrawPixel | src/Video.cpp:47-57 | cell `(x+i)+(y+j)*64` becomes its old value XOR `bitQuery(sprite[j], 7 - i)` |
| Video.DrawTwiceRestores | src/Video.cpp:56-57 | drawing the same sprite twice at the same position restores the buffer |
| Video.CollisionIff | src/Video.cpp:55-66 | a draw collides iff some touched cell holds 1 and receives the value 1 |
| Video.DrawLightsBlankCells | src/Video.cpp:55-57 | a touched cell that held 0 ends odd |
| Video.BlankDrawTwice | src/Video.cpp:44-66 | on a blank screen the first draw does not collide, the second does, and it leaves the screen blank |
| Video.DrawnNotBinary | src/Video.cpp:55-57 | drawing row byte 0xF0 at (0, 0) on a blank screen leaves 1, 3 and 0xF1 in cells 0, 1 and 7 |
| Video.PresentedBinary | src/Video.cpp:78-95 | for a 0/1 buffer the presentation does not depend on stale pixels, and a pixel is `on` iff its cell is 1 (when the colours differ) |
| Video.PresentedKeepsUnknown | src/Video.cpp:90-93 | a cell that is neither 0 nor 1 keeps its presentation pixel |
| Video.BlankDrawHidden | src/Video.cpp:83-93 | after row byte 0xF0 is drawn at (0, 0) on a blank buffer, presentation keeps pixel 1 as it was, because the cell holds 3 |
| Video.Video.constructor | src/Video.cpp:16-23 | both buffers start with every cell 0 |
| Video.Video.CopyDataToPixels | src/Video.cpp:78-95 | the pixels become `Presented` of the buffer and the old pixels |
| Video.Video.XorPixel | src/Video.cpp:47-66 | XORs the value into cell `k` and leaves every other cell alone; reports an erase iff the cell went from 1 to 0, and then sets VF to 1 |
| Video.Video.DrawRow | src/Video.cpp:45-67 | the buffer becomes `RowDrawn` of row `j` and VF is raised iff one of the row's values erases a 1 |
| Video.Video.DrawSprite | src/Video.cpp:36-71 | the buffer becomes `Drawn`; register 0xF becomes 1 iff `Collides`, otherwise no register changes; the pixels are regenerated unless the guard returned early; memory is unchanged |

## Left out

- SDL is left out: windowing, `SDL_GetKeyboardState`, `SDL_PollEvent` and `SDL_MapRGBA`. The keyboard state is a parameter (`KeyboardState`), and the two colours are constructor parameters of `Video.Video`.
- `waitForKeyPress` is left out. It busy-waits on SDL events and reads an uninitialised event, so there is no deterministic behaviour to model. Its translation step is `ToHex`.
- `setPixelFormat` only stores an SDL pixel format, so it is left out. `getPixels` hands the presentation buffer `_pixels` to the driver; the model exposes it as the `pixels` array of `Video.Video` instead.
- Logging is left out: the `LOG(INFO)` lines have no effect on state.
- The singletons are left out: the `instance()` functions are replaced by explicit objects. `DrawSprite` takes the `Memory` object whose VF it sets.
- `FileUtils::readRom` is file I/O, and `main.cpp` is a demo. Neither is part of this model.
- The instruction set is left out. The code has none:
  - The `switch` in `step` has no cases.
  - `add`, `sub`, `randomByte`, `jump`, `call`, `ret` and `skipNextInstruction` are only declared in include/Cpu.hpp.
  - Nothing uses the stack or the stack pointer.
- The `BitUtils::upper` call in `step` is left out. It is not declared in include/BitUtils.hpp, and its result only feeds the empty `switch`.
- Cpu.Cpu.Fetch: does not model overflow of the C++ `int` program counter (undefined behaviour). `fetch` has no `return` (src/Cpu.cpp:17-22), which is undefined behaviour in C++; the model assumes it returns normally with an arbitrary byte.
- Video.Video.DrawSprite: does not model overflow of the C++ `int` sums `x + SpriteWidth`, `y + height` and `(y + j) * Width` at src/Video.cpp:39,47 (undefined behaviour). With y = 10 and height = INT_MAX - 5, `y + height` overflows in C++ and the guard may pass, where the model's unbounded `Clipped` rejects the sprite.
- BitUtils.BitQuery: a shift by 32 or more at src/BitUtils.cpp:7 is undefined behaviour in C++; the model yields 1 there, as for shifts by 8 to 31.
- Video.Video.DrawSprite: requires that an unclipped sprite provide `height` row bytes (`SpriteFits`). In C++, reading past the end of the pointer is undefined behaviour.
- Video.Video.DrawSprite: requires that the display buffer and the register file be distinct arrays. Aliasing between the singletons is not modelled.
- Video.Video.DrawSprite: omits the failure branch of `setRegister(0xF, 1)`. That branch only logs, and it cannot be taken because 0xF is a valid register.
- Glyphs are byte sequences, not pointers, so the identity of the static arrays that `getFonts` returns is not modelled.
- Header and source disagree in several places. Each one is noted here rather than modelled:
  - include/Video.hpp:47-48 declares `_data[256]`, but the code indexes 2048 cells. The model uses 2048.
  - include/Input.hpp does not declare `isValidKey` or `toHex`.
  - include/Input.hpp:49 declares that `waitForKeyPress` returns `SDL_Scancode`, but the source returns `unsigned char`.
  - include/Memory.hpp declares only `instance()`, the constructors and the copy assignment. It declares none of `read`, `write`, `setRegister`, `getRegister`, `setI`, `getI`, `getFontAddress`, `validAddress` and `validRegisterAddress`, none of the constants `MaxAddress` to `LastRegisterAddress`, and not the memory and register arrays. The model follows src/Memory.cpp: arrays of 4096 and 16 bytes.
  - include/Fonts.hpp declares neither `getFonts` nor the table `_fonts` that src/Fonts.cpp uses.
