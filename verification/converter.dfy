/** The stand-alone converter page: two lookup maps built from the reference
    table, a character-by-character conversion, and the page's small state
    (input, output, direction) with its three handlers. */
module Converter {
  import opened Text
  import opened Characters
  import opened CharMaps
  import StoreConverter

  // ---------------------------------------------------------------------------
  // The two maps

  /** `rows.map(char => [char.latinChar.toLowerCase(), char.batakChar])`. */
  function LatinPairsOf(rows: seq<BatakCharacter>): (ps: seq<(string, string)>)
    ensures |ps| == |rows|
    ensures forall i :: 0 <= i < |rows| ==> ps[i] == (Lower(rows[i].latinChar), rows[i].batakChar)
    decreases |rows|
  {
    if rows == [] then [] else [(Lower(rows[0].latinChar), rows[0].batakChar)] + LatinPairsOf(rows[1..])
  }

  /** `rows.map(char => [char.batakChar, char.latinChar])`. */
  function GlyphPairsOf(rows: seq<BatakCharacter>): (ps: seq<(string, string)>)
    ensures |ps| == |rows|
    ensures forall i :: 0 <= i < |rows| ==> ps[i] == (rows[i].batakChar, rows[i].latinChar)
    decreases |rows|
  {
    if rows == [] then [] else [(rows[0].batakChar, rows[0].latinChar)] + GlyphPairsOf(rows[1..])
  }

  const LatinPairs: seq<(string, string)> := LatinPairsOf(Table)

  const BatakPairs: seq<(string, string)> := GlyphPairsOf(Table)

  const LatinMap: map<string, string> := FoldMap(LatinPairs)

  const BatakMap: map<string, string> := FoldMap(BatakPairs)

  /** Facts about the reference table the maps depend on. */
  lemma TableRowsShape()
    ensures |Table| == 22
    ensures forall i :: 0 <= i < 18 ==> |Table[i].latinChar| >= 2
    ensures forall i :: 0 <= i < |Table| ==> 1 <= |Table[i].latinChar| <= 3 && Table[i].batakChar != []
  {
  }

  lemma LatinKeysLowerCase()
    ensures forall i, j :: 0 <= i < |Table| && 0 <= j < |Table[i].latinChar| ==> !IsUpper(Table[i].latinChar[j])
  {
  }

  lemma ModifierRows()
    ensures Table[18].latinChar == "i" && Table[18].batakChar == "\U{1BE4}"
    ensures Table[19].latinChar == "o" && Table[19].batakChar == "\U{1BE8}"
    ensures Table[20].latinChar == "u" && Table[20].batakChar == "\U{1BE9}"
    ensures Table[21].latinChar == "e" && Table[21].batakChar == "\U{1BE6}"
  {
  }

  /** The table row of a vowel sign. */
  function VowelRow(c: char): int
    requires IsVowelLetter(c)
  {
    if c == 'i' then 18 else if c == 'o' then 19 else if c == 'u' then 20 else 21
  }

  /** What the two maps are built from: 22 pairs each, the first 18 Latin keys at
      least two letters long, the last four rows the vowel signs. */
  lemma PairsShape()
    ensures |LatinPairs| == 22 && |BatakPairs| == 22
    ensures forall i :: 0 <= i < 18 ==> |LatinPairs[i].0| >= 2
    ensures forall c :: IsVowelLetter(c) ==> LatinPairs[VowelRow(c)] == ([c], VowelSign(c))
    ensures forall c :: IsVowelLetter(c) ==> BatakPairs[VowelRow(c)] == (VowelSign(c), [c])
    ensures forall i :: 0 <= i < 22 ==> |BatakPairs[i].0| >= 1 && IsBatakChar(BatakPairs[i].0[0])
  {
    TableRowsShape();
    ModifierRows();
    GlyphsInBatakBlock();
    assert Lower("i") == "i" && Lower("o") == "o" && Lower("u") == "u" && Lower("e") == "e";
  }

  /** Looked up one character at a time, the Latin map holds only the four vowel
      signs: every consonant key is two or three letters long. */
  lemma LatinMapOnOneLetter(c: char)
    ensures Lookup(LatinMap, [c]) == if IsVowelLetter(c) then Some(VowelSign(c)) else None
  {
    PairsShape();
    if IsVowelLetter(c) {
      var i := VowelRow(c);
      assert LatinPairs[i] == ([c], VowelSign(c));
      forall j | i < j < 22 ensures LatinPairs[j].0 != LatinPairs[i].0 {
        assert j == 19 || j == 20 || j == 21;
      }
      FoldMapLastWins(LatinPairs, i);
    } else {
      forall i | 0 <= i < 22 ensures LatinPairs[i].0 != [c] {
        if i >= 18 {
          assert i == 18 || i == 19 || i == 20 || i == 21;
        }
      }
    }
  }

  /** A character outside the Batak block is not a key of the Batak map. */
  lemma BatakMapKeepsOthers(c: char)
    requires !IsBatakChar(c)
    ensures Lookup(BatakMap, [c]).None?
  {
    PairsShape();
    forall i | 0 <= i < 22 ensures BatakPairs[i].0 != [c] {
      assert BatakPairs[i].0[0] != c;
    }
  }

  /** Each vowel-sign glyph reads back as its letter. U+1BE8 is shared by the
      consonant `ya` and the sign `o`; the later row, `o`, wins. */
  lemma VowelSignDecodes(c: char)
    requires IsVowelLetter(c)
    ensures Lookup(BatakMap, VowelSign(c)) == Some([c])
  {
    PairsShape();
    var i := VowelRow(c);
    assert BatakPairs[i] == (VowelSign(c), [c]);
    forall j | i < j < 22 ensures BatakPairs[j].0 != BatakPairs[i].0 {
      assert j == 19 || j == 20 || j == 21;
    }
    FoldMapLastWins(BatakPairs, i);
  }

  /** `convertText(text, toBatak)` over the page's two maps. */
  function ConvertText(text: string, toBatak: bool): string {
    ConvertWith(LatinMap, BatakMap, text, toBatak)
  }

  /** Conversion works piece by piece. */
  lemma ConvertTextAppend(a: string, b: string, toBatak: bool)
    ensures ConvertText(a + b, toBatak) == ConvertText(a, toBatak) + ConvertText(b, toBatak)
  {
    ConvertWithAppend(LatinMap, BatakMap, a, b, toBatak);
  }

  lemma PageMapsAreVowelSignMaps()
    ensures VowelSignMaps(LatinMap, BatakMap)
  {
    forall c ensures Lookup(LatinMap, [c]) == if IsVowelLetter(c) then Some(VowelSign(c)) else None {
      LatinMapOnOneLetter(c);
    }
    forall c | IsVowelLetter(c) ensures Lookup(BatakMap, VowelSign(c)) == Some([c]) {
      VowelSignDecodes(c);
    }
    forall c | !IsBatakChar(c) ensures Lookup(BatakMap, [c]).None? {
      BatakMapKeepsOthers(c);
    }
  }

  /** Latin to Batak, as written, only ever rewrites the vowel letters i, o, u, e. */
  lemma LatinSideIsVowelSignsOnly(text: string)
    ensures ConvertText(text, true) == VowelSignsOnly(Lower(text))
  {
    PageMapsAreVowelSignMaps();
    ConvertWithLatinSide(LatinMap, BatakMap, text);
  }

  /** Text with no Batak code point, converted to Batak and back, comes out lower-cased. */
  lemma ConvertTextRoundTrip(text: string)
    requires forall j :: 0 <= j < |text| ==> !IsBatakChar(text[j])
    ensures ConvertText(ConvertText(text, true), false) == Lower(text)
  {
    PageMapsAreVowelSignMaps();
    ConvertWithRoundTrip(LatinMap, BatakMap, text);
  }

  /** Batak to Latin copies every character outside the Batak block, without
      lower-casing it. */
  lemma BatakSideKeepsOthers(text: string)
    requires forall j :: 0 <= j < |text| ==> !IsBatakChar(text[j])
    ensures ConvertText(text, false) == text
  {
    PageMapsAreVowelSignMaps();
    ConvertWithKeepsOthers(LatinMap, BatakMap, text);
  }

  /** The consonant `ya` is read back as the vowel sign `o`. */
  lemma YaReadsAsO()
    ensures Table[17].latinChar == "ya"
    ensures ConvertText(Table[17].batakChar, false) == "o"
  {
    assert Table[17] == RowYa;
    VowelSignDecodes('o');
    assert MapChars(BatakMap, "\U{1BE8}") == Swap(BatakMap, '\U{1BE8}') + MapChars(BatakMap, []);
  }

  /** The row whose glyph is `s`, read off its code points (-1 for any other
      string). U+1BE8 is shared by `ya` and `o` and reads as the later row, `o`. */
  function GlyphRow(s: string): int {
    if |s| == 1 then
      match s[0]
      case '\U{1BC2}' => 0 case '\U{1BC9}' => 1 case '\U{1BCE}' => 2 case '\U{1BD2}' => 3
      case '\U{1BCB}' => 4 case '\U{1BD1}' => 5 case '\U{1BD6}' => 6 case '\U{1BD8}' => 7
      case '\U{1BC7}' => 8 case '\U{1BE0}' => 9 case '\U{1BDD}' => 10 case '\U{1BD4}' => 11
      case '\U{1BC4}' => 12 case '\U{1BD0}' => 13 case '\U{1BC5}' => 15 case '\U{1BC6}' => 16
      case '\U{1BE4}' => 18 case '\U{1BE8}' => 19 case '\U{1BE9}' => 20 case '\U{1BE6}' => 21
      case _ => -1
    else if |s| == 2 && s[0] == '\U{1BD8}' && s[1] == '\U{1BF0}' then 14
    else -1
  }

  lemma GlyphRows()
    ensures forall i :: 0 <= i < |Table| ==> GlyphRow(Table[i].batakChar) == if i == 17 then 19 else i
  {
    forall i | 0 <= i < |Table| ensures GlyphRow(Table[i].batakChar) == if i == 17 then 19 else i {
    }
  }

  /** Every glyph but that of `nya` is one code point. */
  lemma SingleCodePoints()
    ensures forall i :: 0 <= i < |Table| && i != 14 ==> |Table[i].batakChar| == 1
  {
    forall i | 0 <= i < |Table| && i != 14 ensures |Table[i].batakChar| == 1 {
    }
  }

  /** No row after row `i` has row `i`'s glyph, except that `o` repeats `ya`'s. */
  lemma GlyphLastAt(i: int)
    requires 0 <= i < 22 && i != 17
    ensures forall j :: i < j < 22 ==> BatakPairs[j].0 != BatakPairs[i].0
  {
    PairsShape();
    GlyphRows();
    forall j | i < j < 22 ensures BatakPairs[j].0 != BatakPairs[i].0 {
      assert BatakPairs[j].0 == Table[j].batakChar && BatakPairs[i].0 == Table[i].batakChar;
    }
  }

  /** Every glyph that is a single code point, except the shared U+1BE8 of `ya`,
      reads back as its own row's Latin key. */
  lemma GlyphDecodesOnPage(i: int)
    requires 0 <= i < |Table| && i != 14 && i != 17
    ensures ConvertText(Table[i].batakChar, false) == Table[i].latinChar
  {
    PairsShape();
    TableRowsShape();
    SingleCodePoints();
    assert BatakPairs[i] == (Table[i].batakChar, Table[i].latinChar);
    GlyphLastAt(i);
    PairDecodes(LatinMap, BatakPairs, i);
  }

  /** A code point that is no row's glyph, in the Batak block or not, is copied. */
  lemma UnkeyedCharKept(c: char)
    requires forall i :: 0 <= i < |Table| ==> Table[i].batakChar != [c]
    ensures ConvertText([c], false) == [c]
  {
    PairsShape();
    forall i | 0 <= i < |BatakPairs| ensures BatakPairs[i].0 != [c] {
      assert BatakPairs[i].0 == Table[i].batakChar;
    }
    UnkeyedDecodes(LatinMap, BatakPairs, c);
  }

  /** The page's Batak map does hold `nya`'s two code points as a key. */
  lemma NyaKeyOnPage()
    ensures Table[14].latinChar == "nya" && Table[14].batakChar == "\U{1BD8}\U{1BF0}"
    ensures Lookup(BatakMap, Table[14].batakChar) == Some("nya")
  {
    assert Table[14] == RowNya;
    GlyphLastAt(14);
    FoldMapLastWins(BatakPairs, 14);
  }

  /** U+1BF0, the second code point of `nya`, is no row's glyph on its own. */
  lemma MarkIsNoGlyph()
    ensures forall i :: 0 <= i < |Table| ==> Table[i].batakChar != ['\U{1BF0}']
  {
    GlyphRows();
    forall i | 0 <= i < |Table| ensures Table[i].batakChar != ['\U{1BF0}'] {
      assert GlyphRow(Table[i].batakChar) >= 0;
    }
  }

  /** The glyph of `sa` reads back as `sa`. */
  lemma SaDecodes()
    ensures ConvertText(RowSa.batakChar, false) == "sa"
  {
    assert Table[7] == RowSa;
    GlyphDecodesOnPage(7);
  }

  /** The text is split into single code points first, so the `nya` key never
      matches: the pair reads as `sa` followed by an unconverted U+1BF0. */
  lemma NyaPairOnPage()
    ensures Table[14].batakChar == "\U{1BD8}\U{1BF0}"
    ensures ConvertText(Table[14].batakChar, false) == "sa\U{1BF0}"
  {
    assert Table[14] == RowNya;
    MarkIsNoGlyph();
    UnkeyedCharKept('\U{1BF0}');
    SaDecodes();
    TwoCharsDecode(LatinMap, BatakMap, '\U{1BD8}', '\U{1BF0}');
  }

  // ---------------------------------------------------------------------------
  // Syllables: the conversion the page evidently means

  /** Lower-case text with no vowel letter is left exactly as typed. */
  lemma ConsonantsPassThrough(text: string)
    requires forall j :: 0 <= j < |text| ==> !IsUpper(text[j]) && !IsVowelLetter(text[j])
    ensures ConvertText(text, true) == text
  {
    PageMapsAreVowelSignMaps();
    ConvertWithKeepsConsonants(LatinMap, BatakMap, text);
  }

  /** Latin syllables are never converted as written: `ha` comes out as `ha`,
      though the table maps it to U+1BC2. */
  lemma SyllablesPassThrough()
    ensures Table[0].latinChar == "ha" && Table[0].batakChar == "\U{1BC2}"
    ensures ConvertText("ha", true) == "ha"
  {
    assert Table[0] == RowHa;
    ConsonantsPassThrough("ha");
  }

  /** Greedy longest-key conversion over the same Latin map. */
  function ConvertSyllables(text: string): string {
    StoreConverter.ConvertWord(LatinMap, Lower(text))
  }

  /** With greedy matching, every row's Latin key converts to that row's glyph. */
  lemma SyllablesConvertToGlyphs(i: int)
    requires 0 <= i < |Table|
    ensures ConvertSyllables(Table[i].latinChar) == Table[i].batakChar
  {
    TableRowsShape();
    LatinKeysLowerCase();
    TableKeysDistinct();
    var k := Table[i].latinChar;
    LowerOfLowerCase(k);
    assert LatinPairs[i] == (k, Table[i].batakChar);
    forall j | i < j < |LatinPairs| ensures LatinPairs[j].0 != k {
      LowerOfLowerCase(Table[j].latinChar);
      assert LatinChars[i] == k && LatinChars[j] == Table[j].latinChar;
    }
    FoldMapLastWins(LatinPairs, i);
    StoreConverter.WholeKeyConverts(LatinMap, k);
  }

  // ---------------------------------------------------------------------------
  // The page's state

  datatype ConverterState = ConverterState(inputText: string, outputText: string, isLatinToBatak: bool)

  const Initial := ConverterState("", "", true)

  /** The output shows the conversion of the input in the current direction. */
  predicate Consistent(s: ConverterState) {
    s.outputText == ConvertText(s.inputText, s.isLatinToBatak)
  }

  /** `handleInputChange(text)`. */
  function HandleInputChange(s: ConverterState, text: string): (s': ConverterState)
    ensures Consistent(s') && s'.inputText == text && s'.isLatinToBatak == s.isLatinToBatak
  {
    s.(inputText := text, outputText := ConvertText(text, s.isLatinToBatak))
  }

  /** `toggleDirection()`: flip the direction and swap the two texts. */
  function ToggleDirection(s: ConverterState): (s': ConverterState)
    ensures s'.inputText == s.outputText && s'.outputText == s.inputText
    ensures s'.isLatinToBatak == !s.isLatinToBatak
  {
    ConverterState(s.outputText, s.inputText, !s.isLatinToBatak)
  }

  /** `clearAll()`: both texts emptied, direction kept. */
  function ClearAll(s: ConverterState): (s': ConverterState)
    ensures s'.inputText == "" && s'.outputText == ""
    ensures Consistent(s') && s'.isLatinToBatak == s.isLatinToBatak
  {
    s.(inputText := "", outputText := "")
  }

  /** Clearing is the same as typing the empty text, and clearing twice is
      clearing once. */
  lemma ClearAllIsEmptyInput(s: ConverterState)
    ensures ClearAll(s) == HandleInputChange(s, "")
    ensures ClearAll(ClearAll(s)) == ClearAll(s)
  {
  }

  /** Toggling twice restores the state. */
  lemma ToggleTwice(s: ConverterState)
    ensures ToggleDirection(ToggleDirection(s)) == s
  {
  }

  /** After typing lower-case Latin text, toggling keeps the page consistent: the
      output, converted back, is the typed text. */
  lemma ToggleKeepsLowerCaseConsistent(s: ConverterState, text: string)
    requires s.isLatinToBatak
    requires forall j :: 0 <= j < |text| ==> !(IsBatakChar(text[j]))
    requires Lower(text) == text
    ensures Consistent(ToggleDirection(HandleInputChange(s, text)))
  {
    ConvertTextRoundTrip(text);
  }

  /** Upper-case input breaks that: type `O`, toggle, and the input U+1BE8 converts
      to `o`, not to the `O` now shown as output. */
  lemma ToggleLosesCase()
    ensures Consistent(HandleInputChange(Initial, "O"))
    ensures !Consistent(ToggleDirection(HandleInputChange(Initial, "O")))
  {
    var s := HandleInputChange(Initial, "O");
    LatinSideIsVowelSignsOnly("O");
    assert Lower("O") == "o";
    assert s.outputText == VowelSign('o');
    YaReadsAsO();
  }
}
