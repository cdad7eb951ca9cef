/** The reference table of Batak characters and the three queries over it. */
module Characters {
  import opened Text

  /** The closed set of kinds a table entry can have. */
  datatype Category = Vowel | Consonant | Modifier

  /** One row of the reference table. `description` is optional in the record type. */
  datatype BatakCharacter = BatakCharacter(
    id: string,
    batakChar: string,
    latinChar: string,
    pronunciation: string,
    strokeOrder: seq<string>,
    description: Option<string>,
    category: Category)

  /** The 22 shipped entries: 18 consonants (aksara induk) then 4 vowel modifiers
      (anak ni surat). The glyphs are written as code points. */
  const RowHa: BatakCharacter :=
    BatakCharacter("ha", "\U{1BC2}", "ha", "/ha/",
      ["horizontal-top", "vertical-left", "horizontal-middle"],
      Some("Aksara dasar Ha, sering digunakan sebagai awalan kata"), Consonant)
  const RowNa: BatakCharacter :=
    BatakCharacter("na", "\U{1BC9}", "na", "/na/",
      ["vertical-left", "horizontal-top", "diagonal"],
      Some("Aksara Na, salah satu aksara paling umum"), Consonant)
  const RowCa: BatakCharacter :=
    BatakCharacter("ca", "\U{1BCE}", "ca", "/\U{02A7}a/",
      ["curve-top", "vertical-center", "horizontal-bottom"],
      Some("Aksara Ca, digunakan untuk bunyi ch"), Consonant)
  const RowRa: BatakCharacter :=
    BatakCharacter("ra", "\U{1BD2}", "ra", "/ra/",
      ["horizontal-top", "vertical-left", "curve-right"],
      Some("Aksara Ra"), Consonant)
  const RowKa: BatakCharacter :=
    BatakCharacter("ka", "\U{1BCB}", "ka", "/ka/",
      ["vertical-left", "horizontal-top", "vertical-right"],
      Some("Aksara Ka"), Consonant)
  const RowDa: BatakCharacter :=
    BatakCharacter("da", "\U{1BD1}", "da", "/da/",
      ["horizontal-top", "vertical-left", "horizontal-bottom"],
      Some("Aksara Da"), Consonant)
  const RowTa: BatakCharacter :=
    BatakCharacter("ta", "\U{1BD6}", "ta", "/ta/",
      ["horizontal-top", "vertical-center", "horizontal-bottom"],
      Some("Aksara Ta"), Consonant)
  const RowSa: BatakCharacter :=
    BatakCharacter("sa", "\U{1BD8}", "sa", "/sa/",
      ["curve-top", "vertical-left", "horizontal-bottom"],
      Some("Aksara Sa"), Consonant)
  const RowPa: BatakCharacter :=
    BatakCharacter("pa", "\U{1BC7}", "pa", "/pa/",
      ["vertical-left", "horizontal-top", "horizontal-middle"],
      Some("Aksara Pa"), Consonant)
  const RowWa: BatakCharacter :=
    BatakCharacter("wa", "\U{1BE0}", "wa", "/wa/",
      ["curve-left", "vertical-center", "curve-right"],
      Some("Aksara Wa"), Consonant)
  const RowLa: BatakCharacter :=
    BatakCharacter("la", "\U{1BDD}", "la", "/la/",
      ["vertical-left", "curve-middle", "horizontal-bottom"],
      Some("Aksara La"), Consonant)
  const RowMa: BatakCharacter :=
    BatakCharacter("ma", "\U{1BD4}", "ma", "/ma/",
      ["horizontal-top", "vertical-left", "curve-bottom"],
      Some("Aksara Ma"), Consonant)
  const RowGa: BatakCharacter :=
    BatakCharacter("ga", "\U{1BC4}", "ga", "/ga/",
      ["curve-top", "vertical-left", "horizontal-middle"],
      Some("Aksara Ga"), Consonant)
  const RowJa: BatakCharacter :=
    BatakCharacter("ja", "\U{1BD0}", "ja", "/\U{02A4}a/",
      ["horizontal-top", "curve-middle", "vertical-bottom"],
      Some("Aksara Ja"), Consonant)
  const RowNya: BatakCharacter :=
    BatakCharacter("nya", "\U{1BD8}\U{1BF0}", "nya", "/\U{0272}a/",
      ["curve-top", "vertical-left", "dot-top"],
      Some("Aksara Nya"), Consonant)
  const RowNga: BatakCharacter :=
    BatakCharacter("nga", "\U{1BC5}", "nga", "/\U{014B}a/",
      ["curve-full", "vertical-center"],
      Some("Aksara Nga"), Consonant)
  const RowBa: BatakCharacter :=
    BatakCharacter("ba", "\U{1BC6}", "ba", "/ba/",
      ["vertical-left", "horizontal-top", "curve-bottom"],
      Some("Aksara Ba"), Consonant)
  const RowYa: BatakCharacter :=
    BatakCharacter("ya", "\U{1BE8}", "ya", "/ja/",
      ["curve-left", "vertical-right", "horizontal-bottom"],
      Some("Aksara Ya"), Consonant)
  const RowI: BatakCharacter :=
    BatakCharacter("i", "\U{1BE4}", "i", "/i/",
      ["dot-top"],
      Some("Anak ni surat untuk bunyi i"), Modifier)
  const RowO: BatakCharacter :=
    BatakCharacter("o", "\U{1BE8}", "o", "/o/",
      ["curve-above"],
      Some("Anak ni surat untuk bunyi o"), Modifier)
  const RowU: BatakCharacter :=
    BatakCharacter("u", "\U{1BE9}", "u", "/u/",
      ["curve-below"],
      Some("Anak ni surat untuk bunyi u"), Modifier)
  const RowE: BatakCharacter :=
    BatakCharacter("e", "\U{1BE6}", "e", "/e/",
      ["horizontal-above"],
      Some("Anak ni surat untuk bunyi e"), Modifier)
  const Table: seq<BatakCharacter> := [
    RowHa, RowNa, RowCa, RowRa, RowKa, RowDa,
    RowTa, RowSa, RowPa, RowWa, RowLa, RowMa,
    RowGa, RowJa, RowNya, RowNga, RowBa, RowYa,
    RowI, RowO, RowU, RowE]

  /** The ids and Latin keys, in table order. */
  const Ids: seq<string> := seq(|Table|, i requires 0 <= i < |Table| => Table[i].id)
  const LatinChars: seq<string> := seq(|Table|, i requires 0 <= i < |Table| => Table[i].latinChar)

  predicate Distinct(xs: seq<string>) {
    forall i, j :: 0 <= i < j < |xs| ==> xs[i] != xs[j]
  }

  /** The row of the shipped table whose key is `s`, read off the key's letters
      (-1 for any other string). Comparing characters instead of whole strings
      keeps the distinctness proof below cheap. */
  function KeyRow(s: string): int {
    if |s| == 1 then
      match s[0]
      case 'i' => 18 case 'o' => 19 case 'u' => 20 case 'e' => 21 case _ => -1
    else if |s| == 3 && s[0] == 'n' && s[2] == 'a' then
      if s[1] == 'y' then 14 else if s[1] == 'g' then 15 else -1
    else if |s| == 2 && s[1] == 'a' then
      match s[0]
      case 'h' => 0 case 'n' => 1 case 'c' => 2 case 'r' => 3 case 'k' => 4
      case 'd' => 5 case 't' => 6 case 's' => 7 case 'p' => 8 case 'w' => 9
      case 'l' => 10 case 'm' => 11 case 'g' => 12 case 'j' => 13 case 'b' => 16
      case 'y' => 17 case _ => -1
    else -1
  }

  /** The 22 keys of the shipped table, in table order. */
  const ShippedKeys: seq<string> := ["ha", "na", "ca", "ra", "ka", "da", "ta", "sa", "pa", "wa", "la",
                                     "ma", "ga", "ja", "nya", "nga", "ba", "ya", "i", "o", "u", "e"]

  /** Each shipped key reads back as its own row, so no two are equal. */
  lemma KeysInTableOrder()
    ensures forall i :: 0 <= i < |ShippedKeys| ==> KeyRow(ShippedKeys[i]) == i
  {
    forall i | 0 <= i < |ShippedKeys| ensures KeyRow(ShippedKeys[i]) == i {
    }
  }

  /** The table has 22 entries whose ids are pairwise distinct and whose Latin keys
      are pairwise distinct. */
  lemma TableKeysDistinct()
    ensures |Table| == 22
    ensures Distinct(Ids)
    ensures Distinct(LatinChars)
  {
    assert Ids == ShippedKeys;
    assert LatinChars == ShippedKeys;
    KeysInTableOrder();
    assert Distinct(ShippedKeys) by {
      forall i, j | 0 <= i < j < |ShippedKeys| ensures ShippedKeys[i] != ShippedKeys[j] {
        assert KeyRow(ShippedKeys[i]) == i && KeyRow(ShippedKeys[j]) == j;
      }
    }
  }

  /** Glyphs are not unique: the consonant `ya` and the vowel sign `o` share U+1BE8. */
  lemma GlyphsNotInjective()
    ensures exists i, j :: 0 <= i < j < |Table| && Table[i].batakChar == Table[j].batakChar
                           && Table[i].id != Table[j].id
  {
    assert Table[17].batakChar == Table[19].batakChar == "\U{1BE8}";
    assert Table[17].id == "ya" && Table[19].id == "o";
  }

  // ---------------------------------------------------------------------------
  // Queries

  /** `getCharacterById`: the first entry with the given id, if any. */
  function GetCharacterById(id: string): (r: Option<BatakCharacter>)
    ensures r.Some? <==> exists k :: 0 <= k < |Table| && Table[k].id == id
    ensures r.Some? ==> r.value in Table && r.value.id == id
  {
    Find(Table, (e: BatakCharacter) => e.id == id)
  }

  /** Because ids are distinct, looking up an entry's own id finds that entry. */
  lemma GetCharacterByOwnId(k: int)
    requires 0 <= k < |Table|
    ensures GetCharacterById(Table[k].id) == Some(Table[k])
  {
    TableKeysDistinct();
    FindUniqueId(Table, k);
  }

  /** In any table with distinct ids, `find` by an entry's own id returns that entry. */
  lemma FindUniqueId(t: seq<BatakCharacter>, k: int)
    requires 0 <= k < |t|
    requires forall i, j :: 0 <= i < j < |t| ==> t[i].id != t[j].id
    ensures Find(t, (e: BatakCharacter) => e.id == t[k].id) == Some(t[k])
  {
    var p := (e: BatakCharacter) => e.id == t[k].id;
    var r := Find(t, p);
    assert p(t[k]);
    var k' :| 0 <= k' < |t| && t[k'] == r.value && p(t[k']);
    if k' < k {
      assert t[k'].id != t[k].id;
    } else if k < k' {
      assert t[k].id != t[k'].id;
    }
  }

  /** `getCharactersByCategory`: the entries of that category, in table order. */
  function GetCharactersByCategory(c: Category): (r: seq<BatakCharacter>)
    ensures forall k :: 0 <= k < |r| ==> r[k].category == c
    ensures forall k :: 0 <= k < |Table| && Table[k].category == c ==> Table[k] in r
    ensures Subsequence(r, Table)
  {
    FilterIsSubsequence(Table, HasCategory(c));
    Filter(Table, HasCategory(c))
  }

  /** The filter test of `getCharactersByCategory`. */
  function HasCategory(c: Category): BatakCharacter -> bool {
    (e: BatakCharacter) => e.category == c
  }

  /** Rows 0 to 17 are consonants (aksara induk), rows 18 to 21 vowel modifiers
      (anak ni surat); there is no vowel row. */
  lemma CategoryRows()
    ensures forall k | 0 <= k < 18 :: Table[k].category == Consonant
    ensures forall k | 18 <= k < |Table| :: Table[k].category == Modifier
  {
  }

  /** So the category query splits the shipped table at row 18 and finds no vowels. */
  lemma CategoriesSplitTable()
    ensures GetCharactersByCategory(Consonant) == Table[..18]
    ensures GetCharactersByCategory(Modifier) == Table[18..]
    ensures GetCharactersByCategory(Vowel) == []
  {
    ConsonantsFirst();
    ModifiersLast();
    NoVowels();
  }

  lemma ConsonantsFirst()
    ensures GetCharactersByCategory(Consonant) == Table[..18]
  {
    CategoryRows();
    FilterKeepsPrefix(Table, 18, HasCategory(Consonant));
  }

  lemma ModifiersLast()
    ensures GetCharactersByCategory(Modifier) == Table[18..]
  {
    CategoryRows();
    FilterKeepsSuffix(Table, 18, HasCategory(Modifier));
  }

  lemma NoVowels()
    ensures GetCharactersByCategory(Vowel) == []
  {
    CategoryRows();
    FilterNone(Table, HasCategory(Vowel));
  }

  /** The three tests of `searchCharacters`: the Latin key and the description are
      compared lower-cased, the glyph against the query as typed. An entry without
      a description fails that test. */
  predicate MatchesQuery(e: BatakCharacter, query: string) {
    var q := Lower(query);
    || Contains(Lower(e.latinChar), q)
    || Contains(e.batakChar, query)
    || (e.description.Some? && Contains(Lower(e.description.value), q))
  }

  /** `searchCharacters`: the entries passing at least one test, in table order. */
  function SearchCharacters(query: string): (r: seq<BatakCharacter>)
    ensures forall k :: 0 <= k < |r| ==> MatchesQuery(r[k], query)
    ensures forall k :: 0 <= k < |Table| && MatchesQuery(Table[k], query) ==> Table[k] in r
    ensures Subsequence(r, Table)
  {
    FilterIsSubsequence(Table, Matching(query));
    Filter(Table, Matching(query))
  }

  /** The filter test of `searchCharacters`. */
  function Matching(query: string): BatakCharacter -> bool {
    (e: BatakCharacter) => MatchesQuery(e, query)
  }

  /** Every string contains the empty string, so the empty query returns the whole table. */
  lemma SearchEmptyQuery()
    ensures SearchCharacters("") == Table
  {
    var p := Matching("");
    forall k | 0 <= k < |Table| ensures p(Table[k]) {
      assert OccursAt(Lower(Table[k].latinChar), "", 0);
    }
    FilterAll(Table, p);
  }

  predicate IsAsciiLetter(c: char) {
    'a' <= c <= 'z' || 'A' <= c <= 'Z'
  }

  /** The search ignores case: a query and its lower-cased form find the same
      entries. A query with an upper-case letter cannot match a glyph, and any
      other query is its own lower case. */
  lemma SearchIgnoresCase(query: string)
    ensures SearchCharacters(query) == SearchCharacters(Lower(query))
  {
    if i :| 0 <= i < |query| && IsUpper(query[i]) {
      LetterQueryIgnoresCase(query, i);
    } else {
      LowerOfLowerCase(query);
    }
  }

  /** A query with a Latin letter in it can never match a glyph, so for such a query
      the search ignores case entirely. */
  lemma LetterQueryIgnoresCase(query: string, i: int)
    requires 0 <= i < |query| && IsAsciiLetter(query[i])
    ensures SearchCharacters(query) == SearchCharacters(Lower(query))
  {
    var p := Matching(query);
    var p' := Matching(Lower(query));
    LowerIdempotent(query);
    assert IsAsciiLetter(Lower(query)[i]);
    GlyphsInBatakBlock();
    forall k | 0 <= k < |Table| ensures p(Table[k]) == p'(Table[k]) {
      var e := Table[k];
      ContainsNeedsChar(e.batakChar, query, i);
      ContainsNeedsChar(e.batakChar, Lower(query), i);
    }
    FilterSameTest(Table, p, p');
  }

  /** Every glyph is spelled in the Batak block. */
  lemma GlyphsInBatakBlock()
    ensures forall i, j :: 0 <= i < |Table| && 0 <= j < |Table[i].batakChar| ==> IsBatakChar(Table[i].batakChar[j])
  {
  }

  /** A string containing `sub` contains each of its characters. */
  lemma ContainsNeedsChar(s: string, sub: string, i: int)
    requires 0 <= i < |sub|
    ensures Contains(s, sub) ==> sub[i] in s
  {
    if Contains(s, sub) {
      var j :| OccursAt(s, sub, j);
      assert s[j + i] == sub[i];
    }
  }
}
