/** The converter action of the application store: greedy longest-match
    Latin-to-Batak transliteration over an inline 18-key record, and a
    per-character Batak-to-Latin lookup over an inline 17-key record. */
module StoreConverter {
  import opened Text
  import opened Characters

  /** The inline Latin-to-Batak record. `nya` is written with two code points. */
  const LatinToBatak: map<string, string> := map[
    "ha" := "\U{1BC2}", "na" := "\U{1BC9}", "ca" := "\U{1BCE}", "ra" := "\U{1BD2}",
    "ka" := "\U{1BCB}", "da" := "\U{1BD1}", "ta" := "\U{1BD6}", "sa" := "\U{1BD8}",
    "pa" := "\U{1BC7}", "wa" := "\U{1BE0}", "la" := "\U{1BDD}", "ma" := "\U{1BD4}",
    "ga" := "\U{1BC4}", "ja" := "\U{1BD0}", "nya" := "\U{1BD8}\U{1BF0}",
    "nga" := "\U{1BC5}", "ba" := "\U{1BC6}", "ya" := "\U{1BE8}"]

  /** The inline Batak-to-Latin record: one glyph per key, no entry for `nya`. */
  const BatakToLatin: map<string, string> := map[
    "\U{1BC2}" := "ha", "\U{1BC9}" := "na", "\U{1BCE}" := "ca", "\U{1BD2}" := "ra",
    "\U{1BCB}" := "ka", "\U{1BD1}" := "da", "\U{1BD6}" := "ta", "\U{1BD8}" := "sa",
    "\U{1BC7}" := "pa", "\U{1BE0}" := "wa", "\U{1BDD}" := "la", "\U{1BD4}" := "ma",
    "\U{1BC4}" := "ga", "\U{1BD0}" := "ja", "\U{1BC5}" := "nga", "\U{1BC6}" := "ba",
    "\U{1BE8}" := "ya"]

  /** Every key is two or three letters ending in `a`. */
  lemma KeyLengths()
    ensures forall k :: k in LatinToBatak ==> 2 <= |k| <= 3
  {
  }

  /** The two three-letter keys, `nya` and `nga`, do not have `a` in the middle. */
  lemma LongKeysShape()
    ensures forall k :: k in LatinToBatak && |k| == 3 ==> k[1] != 'a'
  {
  }

  /** Every two-letter key ends in `a`. */
  lemma ShortKeysShape()
    ensures forall k :: k in LatinToBatak && |k| == 2 ==> k[1] == 'a'
  {
  }

  /** Every key starts with one of the sixteen consonant letters. */
  lemma KeyInitials()
    ensures forall k :: k in LatinToBatak ==> IsKeyInitial(k[0])
  {
  }

  predicate IsKeyInitial(c: char) {
    || c == 'h' || c == 'n' || c == 'c' || c == 'r' || c == 'k' || c == 'd' || c == 't' || c == 's'
    || c == 'p' || c == 'w' || c == 'l' || c == 'm' || c == 'g' || c == 'j' || c == 'b' || c == 'y'
  }

  /** Every key is already lower case. */
  lemma KeysLowerCase()
    ensures forall k :: k in LatinToBatak ==> Lower(k) == k
  {
  }

  /** Every value is a non-empty run of Batak code points. */
  lemma GlyphsShape()
    ensures forall k :: k in LatinToBatak ==> LatinToBatak[k] != []
    ensures forall k, c :: k in LatinToBatak && c in LatinToBatak[k] ==> IsBatakChar(c)
  {
  }

  // ---------------------------------------------------------------------------
  // Latin to Batak

  function Min(a: int, b: int): int {
    if a < b then a else b
  }

  /** `word.substring(i, i + len)` for the remainder `w` of the word from `i` on:
      the first `len` characters, or fewer when the word ends first. */
  function Piece(w: string, len: nat): string {
    w[..Min(len, |w|)]
  }

  predicate IsPrefix(p: string, s: string) {
    |p| <= |s| && s[..|p|] == p
  }

  /** A record the 3-2-1 probe can serve: keys of one to three characters, and
      values that are not empty. */
  predicate Probeable(t: map<string, string>) {
    forall k :: k in t ==> 1 <= |k| <= 3 && t[k] != []
  }

  /** One pass of the inner `for (len = 3; len >= 1; len--)` loop at the start of
      `w`, against record `t`: the first length whose piece is a key, with the
      glyphs it maps to. */
  function LongestMatch(t: map<string, string>, w: string): (m: Option<(nat, string)>)
    ensures m.Some? ==> 1 <= m.value.0 <= 3 && Lookup(t, Piece(w, m.value.0)) == Some(m.value.1)
  {
    if Lookup(t, Piece(w, 3)).Some? then Some((3, t[Piece(w, 3)]))
    else if Lookup(t, Piece(w, 2)).Some? then Some((2, t[Piece(w, 2)]))
    else if Lookup(t, Piece(w, 1)).Some? then Some((1, t[Piece(w, 1)]))
    else None
  }

  /** On a probeable record the probe finds the longest key that prefixes the
      text, and finds nothing exactly when no key prefixes it. */
  lemma LongestMatchIsLongest(t: map<string, string>, w: string)
    requires Probeable(t)
    ensures var m := LongestMatch(t, w);
      && (m.Some? ==> var key := Piece(w, m.value.0);
           && key in t && IsPrefix(key, w)
           && forall k :: k in t && IsPrefix(k, w) ==> |k| <= |key|)
      && (m.None? <==> forall k :: k in t ==> !IsPrefix(k, w))
  {
    var m := LongestMatch(t, w);
    forall k | k in t && IsPrefix(k, w)
      ensures k == Piece(w, |k|)
      ensures Lookup(t, Piece(w, |k|)).Some?
    {
    }
    if m.Some? {
      var key := Piece(w, m.value.0);
      assert IsPrefix(key, w);
    }
  }

  /** A character some value of `t` contains. */
  ghost predicate InValues(t: map<string, string>, c: char) {
    exists k :: k in t && c in t[k]
  }

  /** The `while (i < word.length)` loop of one word, on the remainder of the word:
      emit the glyphs of the longest key, or copy one unmatched character. */
  function ConvertWord(t: map<string, string>, w: string): string
    decreases |w|
  {
    if w == [] then []
    else
      match LongestMatch(t, w)
      case Some((len, glyphs)) => glyphs + ConvertWord(t, w[Min(len, |w|)..])
      case None => [w[0]] + ConvertWord(t, w[1..])
  }

  /** Every character of a converted word was in the word or comes from a value of
      the record: nothing else is invented. */
  lemma {:induction false} ConvertWordChars(t: map<string, string>, w: string)
    ensures forall c :: c in ConvertWord(t, w) ==> c in w || InValues(t, c)
    decreases |w|
  {
    if w != [] {
      match LongestMatch(t, w)
      case Some((len, glyphs)) =>
        var w' := w[Min(len, |w|)..];
        ConvertWordChars(t, w');
        assert Piece(w, len) in t && t[Piece(w, len)] == glyphs;
        assert forall c :: c in w' ==> c in w;
      case None =>
        ConvertWordChars(t, w[1..]);
    }
  }

  /** A whole key on its own converts to its value. */
  lemma WholeKeyConverts(t: map<string, string>, k: string)
    requires k in t && t[k] != [] && 1 <= |k| <= 3
    ensures ConvertWord(t, k) == t[k]
  {
    assert Piece(k, 3) == k;
    assert k[Min(3, |k|)..] == [];
  }

  /** One step of the word loop: the converted word is the step's output followed
      by the converted remainder. */
  lemma ConvertWordStep(t: map<string, string>, w: string, step: nat, out: string)
    requires w != []
    requires (LongestMatch(t, w) == Some((step, out)))
          || (LongestMatch(t, w).None? && step == 1 && out == [w[0]])
    ensures ConvertWord(t, w) == out + ConvertWord(t, w[Min(step, |w|)..])
  {
  }

  /** One turn of the outer loop at position `i` emits `out` and moves on by `step`. */
  lemma LoopStep(t: map<string, string>, word: string, i: nat, step: nat, out: string)
    requires i < |word|
    requires (LongestMatch(t, word[i..]) == Some((step, out)))
          || (LongestMatch(t, word[i..]).None? && step == 1 && out == [word[i]])
    ensures ConvertWord(t, word[i..]) == out + ConvertWord(t, word[Min(i + step, |word|)..])
  {
    var w := word[i..];
    ConvertWordStep(t, w, step, out);
    assert w[Min(step, |w|)..] == word[Min(i + step, |word|)..];
  }

  lemma Regroup(done: string, out: string, rest: string, rest': string)
    requires rest == out + rest'
    ensures done + rest == (done + out) + rest'
  {
  }

  /** The inner `for (len = 3; len >= 1; len--)` loop at position `i`, as written:
      it stops at the first piece the record holds. */
  method Probe(t: map<string, string>, word: string, i: nat) returns (hit: Option<(nat, string)>)
    requires i < |word|
    ensures hit == LongestMatch(t, word[i..])
  {
    ghost var w := word[i..];
    var len := 3;
    while len >= 1
      invariant 0 <= len <= 3
      invariant forall l :: len < l <= 3 ==> Lookup(t, Piece(w, l)).None?
      decreases len
    {
      var substr := word[i..Min(i + len, |word|)];
      assert substr == Piece(w, len);
      if substr in t && t[substr] != "" {
        return Some((len, t[substr]));
      }
      len := len - 1;
    }
    return None;
  }

  /** The outer `while (i < word.length)` loop, as written: `i += len` may step past
      the end of the word when `substring` was clipped; the loop then simply stops. */
  method ConvertWordLoop(t: map<string, string>, word: string) returns (batakWord: string)
    ensures batakWord == ConvertWord(t, word)
  {
    batakWord := "";
    var i := 0;
    assert word[Min(i, |word|)..] == word;
    while i < |word|
      invariant 0 <= i
      invariant batakWord + ConvertWord(t, word[Min(i, |word|)..]) == ConvertWord(t, word)
      decreases |word| - i
    {
      var hit := Probe(t, word, i);
      var step, out;
      if hit.Some? {
        step, out := hit.value.0, hit.value.1;
      } else {
        step, out := 1, [word[i]];
      }
      LoopStep(t, word, i, step, out);
      Regroup(batakWord, out, ConvertWord(t, word[i..]), ConvertWord(t, word[Min(i + step, |word|)..]));
      batakWord := batakWord + out;
      i := i + step;
    }
    assert word[Min(i, |word|)..] == [];
  }

  /** `words.map(...)`: every word converted with the Latin-to-Batak record. */
  function ConvertWords(ws: seq<string>): seq<string> {
    seq(|ws|, i requires 0 <= i < |ws| => ConvertWord(LatinToBatak, ws[i]))
  }

  /** `input.toLowerCase().split(" ")`, each word converted, joined by single spaces. */
  function LatinToBatakText(input: string): string {
    Join(ConvertWords(Split(Lower(input))))
  }

  /** Lower-case letters spelling a key are converted to that key's glyphs, whatever
      follows: a two-letter key is never taken for a three-letter one. */
  lemma KeyStep(k: string, rest: string)
    requires k in LatinToBatak
    ensures ConvertWord(LatinToBatak, k + rest) == LatinToBatak[k] + ConvertWord(LatinToBatak, rest)
  {
    KeyLengths();
    LongKeysShape();
    ShortKeysShape();
    GlyphsShape();
    var w := k + rest;
    if |k| == 3 {
      assert Piece(w, 3) == k;
      assert w[Min(3, |w|)..] == rest;
    } else if rest == [] {
      assert w == k && Piece(w, 3) == k;
      assert w[Min(3, |w|)..] == rest;
    } else {
      assert Piece(w, 3)[1] == 'a';
      assert Piece(w, 3) !in LatinToBatak;
      assert Piece(w, 2) == k;
      assert w[Min(2, |w|)..] == rest;
    }
  }

  /** `nga` is one glyph, never `n` followed by `ga`. */
  lemma NgaIsOneGlyph(rest: string)
    ensures ConvertWord(LatinToBatak, "nga" + rest) == "\U{1BC5}" + ConvertWord(LatinToBatak, rest)
  {
    KeyStep("nga", rest);
  }

  /** `nya` is its two-code-point spelling, never `n` followed by `ya`. */
  lemma NyaIsItsGlyphPair(rest: string)
    ensures ConvertWord(LatinToBatak, "nya" + rest) == "\U{1BD8}\U{1BF0}" + ConvertWord(LatinToBatak, rest)
  {
    KeyStep("nya", rest);
  }

  /** The glyphs of a sequence of keys, laid end to end. */
  function Spell(ks: seq<string>): string
    requires forall i :: 0 <= i < |ks| ==> ks[i] in LatinToBatak
    decreases |ks|
  {
    if ks == [] then [] else LatinToBatak[ks[0]] + Spell(ks[1..])
  }

  /** A word made of keys converts key by key. */
  lemma {:induction false} KeysConvertOneByOne(ks: seq<string>)
    requires forall i :: 0 <= i < |ks| ==> ks[i] in LatinToBatak
    ensures ConvertWord(LatinToBatak, Concat(ks)) == Spell(ks)
    decreases |ks|
  {
    if ks != [] {
      KeysConvertOneByOne(ks[1..]);
      KeyStep(ks[0], Concat(ks[1..]));
    }
  }

  /** A word in which no character can start a key is copied unchanged. */
  lemma {:induction false} UnmatchedCopied(w: string)
    requires forall i :: 0 <= i < |w| ==> !IsKeyInitial(w[i])
    ensures ConvertWord(LatinToBatak, w) == w
    decreases |w|
  {
    if w != [] {
      KeyInitials();
      forall l | 1 <= l <= 3 ensures Lookup(LatinToBatak, Piece(w, l)).None? {
        assert Piece(w, l)[0] == w[0];
      }
      assert LongestMatch(LatinToBatak, w).None?;
      UnmatchedCopied(w[1..]);
    }
  }

  /** A converted word has no space unless its source word had one. */
  lemma ConvertWordNoSpace(w: string)
    requires ' ' !in w
    ensures ' ' !in ConvertWord(LatinToBatak, w)
  {
    GlyphsShape();
    ConvertWordChars(LatinToBatak, w);
  }

  lemma ConvertWordsAppend(xs: seq<string>, ys: seq<string>)
    ensures ConvertWords(xs + ys) == ConvertWords(xs) + ConvertWords(ys)
  {
  }

  /** Empty input, empty output. */
  lemma LatinToBatakEmpty()
    ensures LatinToBatakText("") == ""
  {
    assert Split("") == [[]];
    assert ConvertWords([[]]) == [[]];
  }

  /** Upper and lower case convert alike. */
  lemma LatinToBatakIgnoresCase(s: string)
    ensures LatinToBatakText(s) == LatinToBatakText(Lower(s))
  {
    LowerIdempotent(s);
  }

  /** Words are converted independently: the text on either side of a space
      converts as if it stood alone. */
  lemma LatinToBatakWordwise(a: string, b: string)
    ensures LatinToBatakText(a + " " + b) == LatinToBatakText(a) + " " + LatinToBatakText(b)
  {
    LowerAppend(a + " ", b);
    LowerAppend(a, " ");
    assert Lower(" ") == " ";
    SplitAroundSpace(Lower(a), Lower(b));
    ConvertWordsAppend(Split(Lower(a)), Split(Lower(b)));
    JoinAppend(ConvertWords(Split(Lower(a))), ConvertWords(Split(Lower(b))));
  }

  /** The output has exactly as many spaces as the input. */
  lemma LatinToBatakKeepsSpaces(s: string)
    ensures Count(' ', LatinToBatakText(s)) == Count(' ', s)
  {
    var ws := Split(Lower(s));
    var cs := ConvertWords(ws);
    forall k | 0 <= k < |cs| ensures ' ' !in cs[k] {
      ConvertWordNoSpace(ws[k]);
    }
    CountJoin(cs);
    JoinSplit(Lower(s));
    CountJoin(ws);
    LowerKeepsSpaces(s);
  }

  lemma {:induction false} KeysSpellLowerCaseWord(ks: seq<string>)
    requires forall i :: 0 <= i < |ks| ==> ks[i] in LatinToBatak
    ensures Lower(Concat(ks)) == Concat(ks)
    ensures ' ' !in Concat(ks)
    decreases |ks|
  {
    if ks != [] {
      KeysLowerCase();
      KeysSpellLowerCaseWord(ks[1..]);
      LowerAppend(ks[0], Concat(ks[1..]));
      assert ' ' !in ks[0] by {
        KeysWithoutSpaces();
      }
    }
  }

  lemma KeysWithoutSpaces()
    ensures forall k :: k in LatinToBatak ==> ' ' !in k
  {
  }

  /** Text spelled from keys alone converts to the keys' glyphs in order. */
  lemma LatinToBatakOfKeys(ks: seq<string>)
    requires forall i :: 0 <= i < |ks| ==> ks[i] in LatinToBatak
    ensures LatinToBatakText(Concat(ks)) == Spell(ks)
  {
    KeysSpellLowerCaseWord(ks);
    SplitWord(Concat(ks));
    KeysConvertOneByOne(ks);
    assert ConvertWords([Concat(ks)]) == [Spell(ks)];
  }

  // ---------------------------------------------------------------------------
  // Batak to Latin

  /** The reverse record is keyed by single Batak code points and holds no empty value. */
  lemma ReverseKeysShape()
    ensures forall g :: g in BatakToLatin ==> |g| == 1 && IsBatakChar(g[0]) && BatakToLatin[g] != []
  {
  }

  /** Every glyph but that of `nya` is a single code point the reverse record maps
      back to its key. */
  lemma ReverseUndoesGlyphs()
    ensures forall k :: k in LatinToBatak && k != "nya" ==> |LatinToBatak[k]| == 1
    ensures forall k :: k in LatinToBatak && k != "nya" ==>
              LatinToBatak[k] in BatakToLatin && BatakToLatin[LatinToBatak[k]] == k
  {
  }

  /** `batakToLatin[char] || char`. */
  function GlyphToLatin(c: char): (r: string)
    ensures r != []
  {
    match Lookup(BatakToLatin, [c])
    case Some(latin) => latin
    case None => [c]
  }

  /** `input.split("").map(...).join("")`. */
  function BatakToLatinText(s: string): (r: string)
    ensures |r| >= |s|
    decreases |s|
  {
    if s == [] then [] else GlyphToLatin(s[0]) + BatakToLatinText(s[1..])
  }

  /** The reverse conversion works character by character. */
  lemma {:induction false} BatakToLatinAppend(a: string, b: string)
    ensures BatakToLatinText(a + b) == BatakToLatinText(a) + BatakToLatinText(b)
    decreases |a|
  {
    if a == [] {
      assert a + b == b;
    } else {
      assert (a + b)[1..] == a[1..] + b;
      BatakToLatinAppend(a[1..], b);
    }
  }

  /** Text without Batak code points passes through unchanged. */
  lemma {:induction false} BatakToLatinKeepsOtherText(s: string)
    requires forall i :: 0 <= i < |s| ==> !IsBatakChar(s[i])
    ensures BatakToLatinText(s) == s
    decreases |s|
  {
    if s != [] {
      OtherCharKept(s[0]);
      BatakToLatinKeepsOtherText(s[1..]);
    }
  }

  lemma OtherCharKept(c: char)
    requires !IsBatakChar(c)
    ensures GlyphToLatin(c) == [c]
  {
    ReverseKeysShape();
    var g := [c];
    assert g[0] == c;
    assert g !in BatakToLatin;
  }

  /** Each glyph but that of `nya` decodes to the key it was encoded from. */
  lemma GlyphDecodesToKey(k: string)
    requires k in LatinToBatak && k != "nya"
    ensures BatakToLatinText(LatinToBatak[k]) == k
  {
    ReverseUndoesGlyphs();
    var g := LatinToBatak[k];
    assert g == [g[0]];
    assert Lookup(BatakToLatin, [g[0]]) == Some(k);
  }

  /** The `nya` glyph pair decodes to `sa` followed by the undecoded second code point. */
  lemma NyaDecodesAsSa()
    ensures BatakToLatinText(LatinToBatak["nya"]) == "sa\U{1BF0}"
  {
    var g := LatinToBatak["nya"];
    assert Lookup(BatakToLatin, [g[0]]) == Some("sa");
    assert Lookup(BatakToLatin, [g[1]]).None?;
    assert g[1..][1..] == [];
  }

  /** The glyphs of keys other than `nya` decode back to the keys. */
  lemma {:induction false} SpellDecodes(ks: seq<string>)
    requires forall i :: 0 <= i < |ks| ==> ks[i] in LatinToBatak && ks[i] != "nya"
    ensures BatakToLatinText(Spell(ks)) == Concat(ks)
    decreases |ks|
  {
    if ks != [] {
      SpellDecodes(ks[1..]);
      GlyphDecodesToKey(ks[0]);
      BatakToLatinAppend(LatinToBatak[ks[0]], Spell(ks[1..]));
    }
  }

  /** Latin text spelled from keys other than `nya` survives the round trip. */
  lemma LatinRoundTrip(ks: seq<string>)
    requires forall i :: 0 <= i < |ks| ==> ks[i] in LatinToBatak && ks[i] != "nya"
    ensures BatakToLatinText(LatinToBatakText(Concat(ks))) == Concat(ks)
  {
    LatinToBatakOfKeys(ks);
    SpellDecodes(ks);
  }

  /** ... and `nya` does not: it comes back as `sa` and a stray code point. */
  lemma NyaRoundTrip()
    ensures BatakToLatinText(LatinToBatakText("nya")) == "sa\U{1BF0}"
  {
    assert Concat(["nya"]) == "nya";
    LatinToBatakOfKeys(["nya"]);
    assert Spell(["nya"]) == LatinToBatak["nya"];
    NyaDecodesAsSa();
  }

  // ---------------------------------------------------------------------------
  // The store's converter slice

  datatype Mode = LatinToBatakMode | BatakToLatinMode

  datatype ConverterSlice = ConverterSlice(input: string, output: string, mode: Mode)

  /** The store action `convertText`: read input and mode, write the output. */
  function ConvertText(s: ConverterSlice): (s': ConverterSlice)
    ensures s'.input == s.input && s'.mode == s.mode
    ensures s'.output == if s.mode == LatinToBatakMode then LatinToBatakText(s.input) else BatakToLatinText(s.input)
    ensures s.input == "" ==> s'.output == ""
  {
    LatinToBatakEmpty();
    var output := match s.mode
      case LatinToBatakMode => LatinToBatakText(s.input)
      case BatakToLatinMode => BatakToLatinText(s.input);
    s.(output := output)
  }

  /** Converting twice is converting once, and the old output plays no part. */
  lemma ConvertTextIdempotent(s: ConverterSlice, stale: string)
    ensures ConvertText(ConvertText(s)) == ConvertText(s)
    ensures ConvertText(s.(output := stale)) == ConvertText(s)
  {
  }
}
