/**
 * The built-in hexadecimal digit sprites and the lazily filled table that
 * `getSprite` looks them up in.
 */
module Fonts {
  import opened Types

  /** Number of rows in every font sprite; each row is one byte (8 pixels). */
  const SpriteHeight: int := 5

  const Zero: seq<bv8> := [0xF0, 0x90, 0x90, 0x90, 0xF0]
  const One: seq<bv8> := [0x20, 0x60, 0x20, 0x20, 0x70]
  const Two: seq<bv8> := [0xF0, 0x10, 0xF0, 0x80, 0xF0]
  const Three: seq<bv8> := [0xF0, 0x10, 0xF0, 0x10, 0xF0]
  const Four: seq<bv8> := [0x90, 0x90, 0xF0, 0x10, 0x10]
  const Five: seq<bv8> := [0xF0, 0x80, 0xF0, 0x10, 0xF0]
  const Six: seq<bv8> := [0xF0, 0x80, 0xF0, 0x90, 0xF0]
  const Seven: seq<bv8> := [0xF0, 0x10, 0x20, 0x40, 0x40]
  const Eight: seq<bv8> := [0xF0, 0x90, 0xF0, 0x90, 0xF0]
  const Nine: seq<bv8> := [0xF0, 0x90, 0xF0, 0x10, 0xF0]
  const A: seq<bv8> := [0xF0, 0x90, 0xF0, 0x90, 0x90]
  const B: seq<bv8> := [0xE0, 0x90, 0xE0, 0x90, 0xE0]
  const C: seq<bv8> := [0xF0, 0x80, 0x80, 0x80, 0xF0]
  const D: seq<bv8> := [0xE0, 0x90, 0x90, 0x90, 0xE0]
  const E: seq<bv8> := [0xF0, 0x80, 0xF0, 0x80, 0xF0]
  const F: seq<bv8> := [0xF0, 0x80, 0xF0, 0x80, 0x80]

  /** The glyphs in the order `getFonts` pushes them: digit `h` at index `h`. */
  const Glyphs: seq<seq<bv8>> :=
    [Zero, One, Two, Three, Four, Five, Six, Seven,
     Eight, Nine, A, B, C, D, E, F]

  /** What `getSprite(hex)` yields: no sprite (a null pointer) past digit F. */
  function Sprite(hex: bv8): (r: Option<seq<bv8>>)
    ensures r.Some? <==> hex <= 0xF
    ensures r.Some? ==> |r.value| == SpriteHeight
    ensures hex == 0x0 ==> r == Some(Zero)
    ensures hex == 0xF ==> r == Some(F)
  {
    if hex > 0xF then None else Some(Glyphs[hex as int])
  }

  /**
   * Every glyph is `SpriteHeight` rows tall and uses only the left four
   * pixels of each row (the low nibble of every row byte is zero).
   */
  lemma GlyphShapes()
    ensures |Glyphs| == 16
    ensures forall h :: 0 <= h < |Glyphs| ==> |Glyphs[h]| == SpriteHeight
    ensures forall h, row :: 0 <= h < |Glyphs| && 0 <= row < |Glyphs[h]| ==> Glyphs[h][row] & 0x0F == 0
  {
  }

  /** No two digits share a glyph, so a glyph identifies its digit. */
  lemma GlyphsDistinct()
    ensures forall h, g :: 0 <= h < g < |Glyphs| ==> Glyphs[h] != Glyphs[g]
  {
  }

  /**
   * The static glyph table. It starts empty and is filled with all sixteen
   * glyphs, in digit order, by the first call to `GetFonts`.
   */
  class Fonts {
    var fonts: seq<seq<bv8>>

    /** The table is either still empty or completely filled. */
    ghost predicate Valid()
      reads this
    {
      fonts == [] || fonts == Glyphs
    }

    /** The static vector before any call: empty. */
    constructor ()
      ensures Valid() && fonts == []
    {
      fonts := [];
    }

    /**
     * `getFonts`: fills the table only when it is empty; afterwards it holds
     * exactly the sixteen glyphs, so repeated calls do not grow it.
     */
    method GetFonts() returns (r: seq<seq<bv8>>)
      requires Valid()
      modifies this
      ensures Valid()
      ensures fonts == Glyphs && |fonts| == 16
      ensures old(fonts) == Glyphs ==> fonts == old(fonts)
      ensures r == fonts
    {
      if |fonts| == 0 {
        var table := fonts;
        table := table + [Zero];
        table := table + [One];
        table := table + [Two];
        table := table + [Three];
        table := table + [Four];
        table := table + [Five];
        table := table + [Six];
        table := table + [Seven];
        table := table + [Eight];
        table := table + [Nine];
        table := table + [A];
        table := table + [B];
        table := table + [C];
        table := table + [D];
        table := table + [E];
        table := table + [F];
        assert table == Glyphs;
        fonts := table;
      }
      r := fonts;
    }

    /**
     * `getSprite`: no sprite for a digit above F (the table is not touched);
     * otherwise the digit's glyph, read from the table after it is filled.
     */
    method GetSprite(hex: bv8) returns (r: Option<seq<bv8>>)
      requires Valid()
      modifies this
      ensures Valid()
      ensures r == Sprite(hex)
      ensures hex > 0xF ==> fonts == old(fonts)
      ensures hex <= 0xF ==> fonts == Glyphs
    {
      if hex < 0 || hex > 0xF {
        return None;
      }
      var table := GetFonts();
      r := Some(table[hex as int]);
    }
  }
}
