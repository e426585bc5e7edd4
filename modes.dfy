// The bit layout of a token metadata word and the font-style flags. Both are
// declared by the editor's `modes` module, which is not part of this model; the
// values are those the editor used for the layout decoded here:
//
//   bits  0..7   language id      (8 bits)
//   bits  8..10  token type       (3 bits)
//   bits 11..13  font style       (3 bits)
//   bits 14..22  foreground color (9 bits)
//   bits 23..31  background color (9 bits)

module MetadataConsts {

  const LANGUAGEID_MASK: bv32 := 0x0000_00FF
  const TOKEN_TYPE_MASK: bv32 := 0x0000_0700
  const FONT_STYLE_MASK: bv32 := 0x0000_3800
  const FOREGROUND_MASK: bv32 := 0x007F_C000
  const BACKGROUND_MASK: bv32 := 0xFF80_0000

  const LANGUAGEID_OFFSET: bv32 := 0
  const TOKEN_TYPE_OFFSET: bv32 := 8
  const FONT_STYLE_OFFSET: bv32 := 11
  const FOREGROUND_OFFSET: bv32 := 14
  const BACKGROUND_OFFSET: bv32 := 23
}

module FontStyle {

  // Flags within the (already shifted down) font-style field.
  const Italic: bv32 := 1
  const Bold: bv32 := 2
  const Underline: bv32 := 4
}
