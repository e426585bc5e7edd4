// The metadata codec of the editor's token store: five bit-fields packed into
// one 32-bit word, the CSS class name derived from a word, and the word's
// 32-digit binary dump.
module TokenMetadata {

  import MetadataConsts
  import FontStyle
  import opened NumberStrings

  datatype Option<T> = None | Some(value: T)

  // ------------------------------------------------------------ bit-fields

  /**
   * `mask` is one run of set bits whose lowest set bit is bit `offset`. It
   * checks the layout constants only (`LayoutIsPartition`); the generic field
   * lemmas below hold for any mask.
   */
  predicate IsFieldLayout(mask: bv32, offset: bv32) {
    && offset < 32
    && mask != 0
    && (mask >> offset) << offset == mask
    && (mask >> offset) & ((mask >> offset) + 1) == 0
  }

  /** The unsigned shift `>>>`. */
  function ShiftRight(x: bv32, offset: bv32): bv32
    requires offset < 32
  {
    x >> offset
  }

  /** The decoding step shared by all five fields: `(metadata & mask) >>> offset`. */
  function Field(metadata: bv32, mask: bv32, offset: bv32): bv32
    requires offset < 32
  {
    ShiftRight(metadata & mask, offset)
  }

  /** A field reads only the bits under its own mask. */
  lemma FieldIgnoresOtherBits(m: bv32, m': bv32, mask: bv32, offset: bv32)
    requires offset < 32
    requires (m ^ m') & mask == 0
    ensures Field(m, mask, offset) == Field(m', mask, offset)
  {
    assert m & mask == m' & mask;
  }

  /** Overwriting the bits under one mask leaves every field with a disjoint mask as it was. */
  lemma DisjointFieldUnchanged(m: bv32, x: bv32, mask: bv32, offset: bv32, otherMask: bv32)
    requires offset < 32
    requires mask & otherMask == 0
    ensures Field((m & !otherMask) | (x & otherMask), mask, offset) == Field(m, mask, offset)
  {
    FieldIgnoresOtherBits((m & !otherMask) | (x & otherMask), m, mask, offset);
  }

  /** The layout the codec decodes: five contiguous fields, pairwise disjoint, covering the word. */
  lemma LayoutIsPartition()
    ensures IsFieldLayout(MetadataConsts.LANGUAGEID_MASK, MetadataConsts.LANGUAGEID_OFFSET)
    ensures IsFieldLayout(MetadataConsts.TOKEN_TYPE_MASK, MetadataConsts.TOKEN_TYPE_OFFSET)
    ensures IsFieldLayout(MetadataConsts.FONT_STYLE_MASK, MetadataConsts.FONT_STYLE_OFFSET)
    ensures IsFieldLayout(MetadataConsts.FOREGROUND_MASK, MetadataConsts.FOREGROUND_OFFSET)
    ensures IsFieldLayout(MetadataConsts.BACKGROUND_MASK, MetadataConsts.BACKGROUND_OFFSET)
    ensures MetadataConsts.LANGUAGEID_MASK & MetadataConsts.TOKEN_TYPE_MASK == 0
    ensures (MetadataConsts.LANGUAGEID_MASK | MetadataConsts.TOKEN_TYPE_MASK) & MetadataConsts.FONT_STYLE_MASK == 0
    ensures (MetadataConsts.LANGUAGEID_MASK | MetadataConsts.TOKEN_TYPE_MASK | MetadataConsts.FONT_STYLE_MASK)
              & MetadataConsts.FOREGROUND_MASK == 0
    ensures (MetadataConsts.LANGUAGEID_MASK | MetadataConsts.TOKEN_TYPE_MASK | MetadataConsts.FONT_STYLE_MASK
              | MetadataConsts.FOREGROUND_MASK) & MetadataConsts.BACKGROUND_MASK == 0
    ensures MetadataConsts.LANGUAGEID_MASK | MetadataConsts.TOKEN_TYPE_MASK | MetadataConsts.FONT_STYLE_MASK
              | MetadataConsts.FOREGROUND_MASK | MetadataConsts.BACKGROUND_MASK == 0xFFFF_FFFF
  {
  }

  function GetLanguageId(metadata: bv32): (languageId: bv32)
    ensures languageId < 0x100
  {
    Field(metadata, MetadataConsts.LANGUAGEID_MASK, MetadataConsts.LANGUAGEID_OFFSET)
  }

  function GetTokenType(metadata: bv32): (tokenType: bv32)
    ensures tokenType < 0x8
  {
    Field(metadata, MetadataConsts.TOKEN_TYPE_MASK, MetadataConsts.TOKEN_TYPE_OFFSET)
  }

  function GetFontStyle(metadata: bv32): (fontStyle: bv32)
    ensures fontStyle < 0x8
  {
    Field(metadata, MetadataConsts.FONT_STYLE_MASK, MetadataConsts.FONT_STYLE_OFFSET)
  }

  function GetForeground(metadata: bv32): (foreground: bv32)
    ensures foreground < 0x200
  {
    Field(metadata, MetadataConsts.FOREGROUND_MASK, MetadataConsts.FOREGROUND_OFFSET)
  }

  function GetBackground(metadata: bv32): (background: bv32)
    ensures background < 0x200
  {
    Field(metadata, MetadataConsts.BACKGROUND_MASK, MetadataConsts.BACKGROUND_OFFSET)
  }

  /**
   * The word the upstream tokenizer builds from five field values. It is not
   * part of the decoder; it is the reference against which decoding is lossless.
   */
  function Pack(languageId: bv32, tokenType: bv32, fontStyle: bv32, foreground: bv32, background: bv32): bv32 {
    (languageId << MetadataConsts.LANGUAGEID_OFFSET)
    | (tokenType << MetadataConsts.TOKEN_TYPE_OFFSET)
    | (fontStyle << MetadataConsts.FONT_STYLE_OFFSET)
    | (foreground << MetadataConsts.FOREGROUND_OFFSET)
    | (background << MetadataConsts.BACKGROUND_OFFSET)
  }

  /** Every decoder returns exactly the value packed into its field. */
  lemma DecodePack(languageId: bv32, tokenType: bv32, fontStyle: bv32, foreground: bv32, background: bv32)
    requires languageId < 0x100 && tokenType < 0x8 && fontStyle < 0x8
    requires foreground < 0x200 && background < 0x200
    ensures var m := Pack(languageId, tokenType, fontStyle, foreground, background);
      && GetLanguageId(m) == languageId
      && GetTokenType(m) == tokenType
      && GetFontStyle(m) == fontStyle
      && GetForeground(m) == foreground
      && GetBackground(m) == background
  {
  }

  /** Decoding loses nothing: the five fields rebuild the word. */
  lemma PackDecode(m: bv32)
    ensures Pack(GetLanguageId(m), GetTokenType(m), GetFontStyle(m), GetForeground(m), GetBackground(m)) == m
  {
  }

  /** Hence two words with the same five fields are the same word. */
  lemma FieldsDetermineWord(m: bv32, m': bv32)
    requires GetLanguageId(m) == GetLanguageId(m') && GetTokenType(m) == GetTokenType(m')
    requires GetFontStyle(m) == GetFontStyle(m')
    requires GetForeground(m) == GetForeground(m') && GetBackground(m) == GetBackground(m')
    ensures m == m'
  {
    PackDecode(m);
    PackDecode(m');
  }

  // ------------------------------------------------------------ class name

  predicate IsItalic(metadata: bv32) {
    GetFontStyle(metadata) & FontStyle.Italic != 0
  }

  predicate IsBold(metadata: bv32) {
    GetFontStyle(metadata) & FontStyle.Bold != 0
  }

  predicate IsUnderline(metadata: bv32) {
    GetFontStyle(metadata) & FontStyle.Underline != 0
  }

  /** What a class name tells the renderer: the foreground color and the three font flags. */
  datatype ClassStyle = ClassStyle(foreground: nat, italic: bool, bold: bool, underline: bool)

  function StyleOf(metadata: bv32): ClassStyle {
    ClassStyle(GetForeground(metadata) as nat, IsItalic(metadata), IsBold(metadata), IsUnderline(metadata))
  }

  /** The CSS class of a token: "mtk<foreground>", then " mtki", " mtkb", " mtku" for the set flags. */
  function ClassNameFromMetadata(metadata: bv32): (className: string)
    ensures |className| >= 4 && className[..3] == "mtk"
  {
    "mtk" + DecimalDigits(GetForeground(metadata) as nat)
    + (if IsItalic(metadata) then " mtki" else "")
    + (if IsBold(metadata) then " mtkb" else "")
    + (if IsUnderline(metadata) then " mtku" else "")
  }

  function StripMarker(s: string, marker: string): (bool, string) {
    if |marker| <= |s| && s[..|marker|] == marker then (true, s[|marker|..]) else (false, s)
  }

  /** Reads a class name back: "mtk", a run of digits, then the markers in their fixed order. */
  function ParseClassName(s: string): Option<ClassStyle> {
    if |s| < 3 || s[..3] != "mtk" then None
    else
      var rest := s[3..];
      var n := LeadingDigits(rest);
      if n == 0 then None
      else
        var (italic, afterItalic) := StripMarker(rest[n..], " mtki");
        var (bold, afterBold) := StripMarker(afterItalic, " mtkb");
        var (underline, afterUnderline) := StripMarker(afterBold, " mtku");
        if afterUnderline != [] then None
        else Some(ClassStyle(DecimalValue(rest[..n]), italic, bold, underline))
  }

  lemma StripPresentMarker(marker: string, rest: string)
    ensures StripMarker(marker + rest, marker) == (true, rest)
  {
    assert (marker + rest)[..|marker|] == marker;
    assert (marker + rest)[|marker|..] == rest;
  }

  lemma StripAbsentMarker(s: string, marker: string, k: nat)
    requires k < |s| && k < |marker| && s[k] != marker[k]
    ensures StripMarker(s, marker) == (false, s)
  {
    if |marker| <= |s| {
      assert s[..|marker|][k] != marker[k];
    }
  }

  /** The flag markers, in their fixed order, are read back exactly. */
  lemma ParseMarkers(italic: bool, bold: bool, underline: bool)
    ensures var flags := (if italic then " mtki" else "") + (if bold then " mtkb" else "")
                         + (if underline then " mtku" else "");
      && (flags == [] || flags[0] == ' ')
      && var (i, a) := StripMarker(flags, " mtki");
      && var (b, c) := StripMarker(a, " mtkb");
      && var (u, d) := StripMarker(c, " mtku");
      && i == italic && b == bold && u == underline && d == []
  {
    var t3 := if underline then " mtku" else "";
    var t2 := (if bold then " mtkb" else "") + t3;
    var t1 := (if italic then " mtki" else "") + t2;
    assert t2 != [] ==> t2[0] == ' ' && 4 < |t2| && t2[4] != 'i';
    assert t3 != [] ==> 4 < |t3| && t3[4] != 'b';
    if italic {
      StripPresentMarker(" mtki", t2);
    } else {
      assert t1 == t2;
      if t2 != [] { StripAbsentMarker(t2, " mtki", 4); }
    }
    if bold {
      StripPresentMarker(" mtkb", t3);
    } else {
      assert t2 == t3;
      if t3 != [] { StripAbsentMarker(t3, " mtkb", 4); }
    }
    if underline {
      StripPresentMarker(" mtku", []);
      assert t3 == " mtku" + [];
    }
    assert (if italic then " mtki" else "") + (if bold then " mtkb" else "") + t3 == t1;
  }

  /** The class name built from a foreground value and three flags is read back as them. */
  lemma ParseBuiltClassName(foreground: nat, italic: bool, bold: bool, underline: bool)
    ensures ParseClassName("mtk" + DecimalDigits(foreground)
                           + (if italic then " mtki" else "")
                           + (if bold then " mtkb" else "")
                           + (if underline then " mtku" else ""))
            == Some(ClassStyle(foreground, italic, bold, underline))
  {
    var digits := DecimalDigits(foreground);
    var flags := (if italic then " mtki" else "") + (if bold then " mtkb" else "")
                 + (if underline then " mtku" else "");
    var s := "mtk" + digits + (if italic then " mtki" else "") + (if bold then " mtkb" else "")
             + (if underline then " mtku" else "");
    assert s == "mtk" + (digits + flags);
    var rest := s[3..];
    assert rest == digits + flags;
    ParseMarkers(italic, bold, underline);
    LeadingDigitsOfRun(digits, flags);
    assert rest[..|digits|] == digits && rest[|digits|..] == flags;
  }

  /** A word's class name is read back as the word's foreground color and font flags. */
  lemma ParseClassNameInverse(metadata: bv32)
    ensures ParseClassName(ClassNameFromMetadata(metadata)) == Some(StyleOf(metadata))
  {
    ParseBuiltClassName(GetForeground(metadata) as nat, IsItalic(metadata), IsBold(metadata), IsUnderline(metadata));
  }

  /**
   * Two words get the same class name exactly when they agree on the foreground
   * color and on the italic, bold and underline flags; nothing else of the word
   * (language, token type, background) shows in it.
   */
  lemma ClassNameEqualIff(m: bv32, m': bv32)
    ensures ClassNameFromMetadata(m) == ClassNameFromMetadata(m') <==> StyleOf(m) == StyleOf(m')
  {
    if ClassNameFromMetadata(m) == ClassNameFromMetadata(m') {
      ParseClassNameInverse(m);
      ParseClassNameInverse(m');
    }
  }

  // ------------------------------------------------------------ binary dump

  /**
   * `toBinaryStr`: the binary digits of a non-negative number, left-padded with
   * '0' to 32 characters. For a 32-bit word the result is the one 32-digit
   * binary string whose value is the word (BinaryValueInjective); a larger
   * number keeps all its digits.
   */
  method ToBinaryStr(metadata: nat) returns (r: string)
    ensures IsBinary(r) && BinaryValue(r) == metadata
    ensures |r| == if |BinaryDigits(metadata)| < 32 then 32 else |BinaryDigits(metadata)|
    ensures metadata < 0x1_0000_0000 ==> |r| == 32
    ensures |BinaryDigits(metadata)| <= |r| && r == Zeros(|r| - |BinaryDigits(metadata)|) + BinaryDigits(metadata)
  {
    ghost var digits := BinaryDigits(metadata);
    if metadata < 0x1_0000_0000 {
      WordDigitsFit(metadata);
    }
    r := BinaryDigits(metadata);
    assert r == Zeros(0) + digits;
    while |r| < 32
      invariant |digits| <= |r|
      invariant |r| <= 32 || r == digits
      invariant r == Zeros(|r| - |digits|) + digits
      invariant IsBinary(r) && BinaryValue(r) == metadata
    {
      LeadingZeroKeepsValue(r);
      PrependZeroToZeros(|r| - |digits|, digits);
      r := "0" + r;
    }
  }

  /** The dump of the zero word is 32 zeros. */
  lemma ZeroWordDump(r: string)
    requires |r| == 32 && IsBinary(r) && BinaryValue(r) == 0
    ensures r == Zeros(32)
  {
    ZerosValue(32);
    BinaryValueInjective(r, Zeros(32));
  }

  /** The dump of the word 1 is 31 zeros and then a one. */
  lemma OneWordDump(r: string)
    requires |r| == 32 && IsBinary(r) && BinaryValue(r) == 1
    ensures r == Zeros(31) + "1"
  {
    var t := Zeros(31) + "1";
    assert t[..31] == Zeros(31);
    ZerosValue(31);
    BinaryValueInjective(r, t);
  }
}
