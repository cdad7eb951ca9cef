/** The converter page's conversion, independent of the reference table: a
    JavaScript `Map` built from key/value pairs, the character-by-character
    rewrite `map.get(char) || char`, and what that rewrite does for any pair of
    maps that hold only the vowel signs. */
module CharMaps {
  import opened Text

  // ---------------------------------------------------------------------------
  // `new Map(pairs)`

  /** `new Map(pairs)`: every pair is entered in order, so a later pair overwrites
      an earlier one with the same key. */
  function FoldMap(pairs: seq<(string, string)>): (m: map<string, string>)
    ensures forall i :: 0 <= i < |pairs| ==> pairs[i].0 in m
    ensures forall k :: k in m ==> exists i :: 0 <= i < |pairs| && pairs[i].0 == k
    decreases |pairs|
  {
    if pairs == [] then map[]
    else FoldMap(pairs[..|pairs| - 1])[pairs[|pairs| - 1].0 := pairs[|pairs| - 1].1]
  }

  /** The value stored under a key is that of the key's last pair. */
  lemma {:induction false} FoldMapLastWins(pairs: seq<(string, string)>, i: int)
    requires 0 <= i < |pairs|
    requires forall j :: i < j < |pairs| ==> pairs[j].0 != pairs[i].0
    ensures FoldMap(pairs)[pairs[i].0] == pairs[i].1
    decreases |pairs|
  {
    var init := pairs[..|pairs| - 1];
    if i < |pairs| - 1 {
      assert forall j :: i < j < |init| ==> init[j] == pairs[j];
      FoldMapLastWins(init, i);
    }
  }

  // ---------------------------------------------------------------------------
  // Vowel signs

  /** The vowel signs i, o, u, e, the only one-letter keys. */
  predicate IsVowelLetter(c: char) {
    c == 'i' || c == 'o' || c == 'u' || c == 'e'
  }

  /** The glyph of a vowel sign. */
  function VowelSign(c: char): string
    requires IsVowelLetter(c)
  {
    if c == 'i' then "\U{1BE4}" else if c == 'o' then "\U{1BE8}" else if c == 'u' then "\U{1BE9}" else "\U{1BE6}"
  }

  // ---------------------------------------------------------------------------
  // convertText

  /** `map.get(char) || char`. */
  function Swap(m: map<string, string>, c: char): (r: string)
    ensures r != []
  {
    match Lookup(m, [c])
    case Some(v) => v
    case None => [c]
  }

  /** `text.split("").map(char => map.get(char) || char).join("")`. */
  function MapChars(m: map<string, string>, s: string): (r: string)
    ensures |r| >= |s|
    decreases |s|
  {
    if s == [] then [] else Swap(m, s[0]) + MapChars(m, s[1..])
  }

  lemma {:induction false} MapCharsAppend(m: map<string, string>, a: string, b: string)
    ensures MapChars(m, a + b) == MapChars(m, a) + MapChars(m, b)
    decreases |a|
  {
    if a == [] {
      assert a + b == b;
    } else {
      assert (a + b)[0] == a[0] && (a + b)[1..] == a[1..] + b;
      MapCharsAppend(m, a[1..], b);
      calc {
        MapChars(m, a + b);
        Swap(m, a[0]) + MapChars(m, a[1..] + b);
        Swap(m, a[0]) + (MapChars(m, a[1..]) + MapChars(m, b));
        (Swap(m, a[0]) + MapChars(m, a[1..])) + MapChars(m, b);
      }
    }
  }

  /** The body of `convertText` over a given pair of maps. */
  function ConvertWith(latin: map<string, string>, batak: map<string, string>, text: string, toBatak: bool): string {
    if text == [] then []
    else if toBatak then MapChars(latin, Lower(text))
    else MapChars(batak, text)
  }

  lemma ConvertWithAppend(latin: map<string, string>, batak: map<string, string>, a: string, b: string, toBatak: bool)
    ensures ConvertWith(latin, batak, a + b, toBatak)
         == ConvertWith(latin, batak, a, toBatak) + ConvertWith(latin, batak, b, toBatak)
  {
    LowerAppend(a, b);
    if a == [] {
      assert a + b == b;
    } else if b == [] {
      assert a + b == a;
    } else if toBatak {
      MapCharsAppend(latin, Lower(a), Lower(b));
    } else {
      MapCharsAppend(batak, a, b);
    }
  }

  /** Reference for the Latin side: each vowel letter i, o, u, e becomes its sign,
      every other character stays. */
  function VowelSignsOnly(s: string): string
    decreases |s|
  {
    if s == [] then []
    else (if IsVowelLetter(s[0]) then VowelSign(s[0]) else [s[0]]) + VowelSignsOnly(s[1..])
  }

  /** Text with no vowel letter is its own vowel-sign rewrite. */
  lemma {:induction false} VowelSignsOnlyKeeps(s: string)
    requires forall j :: 0 <= j < |s| ==> !IsVowelLetter(s[j])
    ensures VowelSignsOnly(s) == s
    decreases |s|
  {
    if s != [] {
      VowelSignsOnlyKeeps(s[1..]);
      assert s == [s[0]] + s[1..];
    }
  }

  /** What the page's two maps come to, one character at a time: the Latin map
      holds only the vowel signs, the Batak map reads each sign back as its letter
      and holds nothing outside the Batak block. */
  predicate VowelSignMaps(latin: map<string, string>, batak: map<string, string>) {
    && (forall c :: Lookup(latin, [c]) == if IsVowelLetter(c) then Some(VowelSign(c)) else None)
    && (forall c :: IsVowelLetter(c) ==> Lookup(batak, VowelSign(c)) == Some([c]))
    && (forall c :: !IsBatakChar(c) ==> Lookup(batak, [c]).None?)
  }

  lemma {:induction false} VowelSignsOnlyLatinSide(latin: map<string, string>, s: string)
    requires forall c :: Lookup(latin, [c]) == if IsVowelLetter(c) then Some(VowelSign(c)) else None
    ensures MapChars(latin, s) == VowelSignsOnly(s)
    decreases |s|
  {
    if s != [] {
      VowelSignsOnlyLatinSide(latin, s[1..]);
    }
  }

  lemma ConvertWithLatinSide(latin: map<string, string>, batak: map<string, string>, text: string)
    requires VowelSignMaps(latin, batak)
    ensures ConvertWith(latin, batak, text, true) == VowelSignsOnly(Lower(text))
  {
    if text != [] {
      VowelSignsOnlyLatinSide(latin, Lower(text));
    }
  }

  /** Lower-case text without a vowel letter passes through to Batak unchanged. */
  lemma ConvertWithKeepsConsonants(latin: map<string, string>, batak: map<string, string>, text: string)
    requires VowelSignMaps(latin, batak)
    requires forall j :: 0 <= j < |text| ==> !IsUpper(text[j]) && !IsVowelLetter(text[j])
    ensures ConvertWith(latin, batak, text, true) == text
  {
    ConvertWithLatinSide(latin, batak, text);
    LowerOfLowerCase(text);
    VowelSignsOnlyKeeps(text);
  }

  /** One character out to Batak and back. */
  lemma CharRoundTrip(latin: map<string, string>, batak: map<string, string>, c: char)
    requires VowelSignMaps(latin, batak)
    requires !IsBatakChar(c)
    ensures MapChars(batak, Swap(latin, c)) == [c]
  {
    assert Lookup(latin, [c]) == if IsVowelLetter(c) then Some(VowelSign(c)) else None;
    if IsVowelLetter(c) {
      var g := VowelSign(c);
      assert g == [g[0]];
      assert Lookup(batak, [g[0]]) == Some([c]);
      assert MapChars(batak, g) == Swap(batak, g[0]) + MapChars(batak, g[1..]);
    } else {
      assert Lookup(batak, [c]).None?;
      assert MapChars(batak, [c]) == Swap(batak, c) + MapChars(batak, []);
    }
  }

  lemma {:induction false} MapCharsRoundTrip(latin: map<string, string>, batak: map<string, string>, s: string)
    requires VowelSignMaps(latin, batak)
    requires forall j :: 0 <= j < |s| ==> !IsBatakChar(s[j])
    ensures MapChars(batak, MapChars(latin, s)) == s
    decreases |s|
  {
    if s != [] {
      MapCharsRoundTrip(latin, batak, s[1..]);
      CharRoundTrip(latin, batak, s[0]);
      var head, tail := Swap(latin, s[0]), MapChars(latin, s[1..]);
      MapCharsAppend(batak, head, tail);
      calc {
        MapChars(batak, MapChars(latin, s));
        MapChars(batak, head + tail);
        MapChars(batak, head) + MapChars(batak, tail);
        [s[0]] + s[1..];
      }
    }
  }

  /** A one-code-point key whose pair is the last with that key reads back, on the
      Batak side, as that pair's value. */
  lemma PairDecodes(latin: map<string, string>, pairs: seq<(string, string)>, i: int)
    requires 0 <= i < |pairs| && |pairs[i].0| == 1 && pairs[i].1 != []
    requires forall j :: i < j < |pairs| ==> pairs[j].0 != pairs[i].0
    ensures ConvertWith(latin, FoldMap(pairs), pairs[i].0, false) == pairs[i].1
  {
    var g := pairs[i].0;
    FoldMapLastWins(pairs, i);
    assert g == [g[0]];
    assert MapChars(FoldMap(pairs), g) == Swap(FoldMap(pairs), g[0]) + MapChars(FoldMap(pairs), []);
  }

  /** A code point that is no pair's key is copied by the Batak side. */
  lemma UnkeyedDecodes(latin: map<string, string>, pairs: seq<(string, string)>, c: char)
    requires forall i :: 0 <= i < |pairs| ==> pairs[i].0 != [c]
    ensures ConvertWith(latin, FoldMap(pairs), [c], false) == [c]
  {
    assert [c] !in FoldMap(pairs);
    assert MapChars(FoldMap(pairs), [c]) == Swap(FoldMap(pairs), c) + MapChars(FoldMap(pairs), []);
  }

  /** Two code points are read one at a time. */
  lemma TwoCharsDecode(latin: map<string, string>, batak: map<string, string>, a: char, b: char)
    ensures ConvertWith(latin, batak, [a, b], false)
         == ConvertWith(latin, batak, [a], false) + ConvertWith(latin, batak, [b], false)
  {
    assert [a, b] == [a] + [b];
    ConvertWithAppend(latin, batak, [a], [b], false);
  }

  /** A map with no key outside the Batak block copies text without Batak code
      points unchanged, upper case included. */
  lemma {:induction false} MapCharsKeepsOthers(batak: map<string, string>, s: string)
    requires forall c :: !IsBatakChar(c) ==> Lookup(batak, [c]).None?
    requires forall j :: 0 <= j < |s| ==> !IsBatakChar(s[j])
    ensures MapChars(batak, s) == s
    decreases |s|
  {
    if s != [] {
      MapCharsKeepsOthers(batak, s[1..]);
      assert Lookup(batak, [s[0]]).None?;
      assert [s[0]] + s[1..] == s;
    }
  }

  /** Batak to Latin copies text without Batak code points as it is: unlike the
      other direction it does not lower-case. */
  lemma ConvertWithKeepsOthers(latin: map<string, string>, batak: map<string, string>, text: string)
    requires VowelSignMaps(latin, batak)
    requires forall j :: 0 <= j < |text| ==> !IsBatakChar(text[j])
    ensures ConvertWith(latin, batak, text, false) == text
  {
    if text != [] {
      MapCharsKeepsOthers(batak, text);
    }
  }

  lemma ConvertWithRoundTrip(latin: map<string, string>, batak: map<string, string>, text: string)
    requires VowelSignMaps(latin, batak)
    requires forall j :: 0 <= j < |text| ==> !IsBatakChar(text[j])
    ensures ConvertWith(latin, batak, ConvertWith(latin, batak, text, true), false) == Lower(text)
  {
    if text != [] {
      MapCharsRoundTrip(latin, batak, Lower(text));
    }
  }
}
