/** The helper functions of the library module: the `m:ss` clock, accuracy as
    a rounded percentage, the three progress levels, the Fisher-Yates shuffle
    and the two script validators. */
module Utils {
  import opened Text

  // ---------------------------------------------------------------------------
  // Decimal numerals

  predicate IsDigit(c: char) {
    '0' <= c <= '9'
  }

  /** The digit character of `d`. */
  function DigitChar(d: int): (c: char)
    requires 0 <= d < 10
    ensures IsDigit(c)
  {
    ('0' as int + d) as char
  }

  /** The value of a digit character. */
  function DigitValue(c: char): (d: int)
    requires IsDigit(c)
    ensures 0 <= d < 10 && DigitChar(d) == c
  {
    c as int - '0' as int
  }

  /** Reads a string of digits as a decimal numeral. */
  function DecimalValue(s: string): nat
    requires forall i :: 0 <= i < |s| ==> IsDigit(s[i])
    decreases |s|
  {
    if s == [] then 0 else DecimalValue(s[..|s| - 1]) * 10 + DigitValue(s[|s| - 1])
  }

  /** `n.toString()` for a natural number: its shortest decimal numeral. */
  function NatToString(n: nat): (r: string)
    ensures r != [] && (forall i :: 0 <= i < |r| ==> IsDigit(r[i]))
    ensures |r| > 1 ==> r[0] != '0'
    decreases n
  {
    if n < 10 then [DigitChar(n)] else NatToString(n / 10) + [DigitChar(n % 10)]
  }

  /** Reading the numeral back gives the number. */
  lemma {:induction false} NatToStringValue(n: nat)
    ensures DecimalValue(NatToString(n)) == n
    decreases n
  {
    if n >= 10 {
      NatToStringValue(n / 10);
      var r := NatToString(n);
      assert r[..|r| - 1] == NatToString(n / 10);
    }
  }

  /** A number below 10 prints as one character, a number below 100 as at most two. */
  lemma NatToStringShort(n: nat)
    requires n < 100
    ensures n < 10 ==> |NatToString(n)| == 1
    ensures 10 <= n ==> |NatToString(n)| == 2
  {
  }

  /** `s.padStart(width, c)`: `c` repeated in front until `s` is `width` long. */
  function PadStart(s: string, width: nat, c: char): (r: string)
    ensures |r| == if |s| >= width then |s| else width
    ensures r[|r| - |s|..] == s
    ensures forall i :: 0 <= i < |r| - |s| ==> r[i] == c
    decreases width - |s|
  {
    if |s| >= width then s else PadStart([c] + s, width, c)
  }

  // ---------------------------------------------------------------------------
  // formatTime

  /** `formatTime(seconds)`: whole minutes, a colon, and the remaining seconds
      padded to two digits. */
  function FormatTime(seconds: nat): string {
    NatToString(seconds / 60) + ":" + PadStart(NatToString(seconds % 60), 2, '0')
  }

  /** The clock reads `m:ss`: before the colon the minutes as a numeral without
      leading zeros, after it exactly two digits holding the seconds past the
      minute. */
  lemma FormatTimeShape(seconds: nat)
    ensures var r := FormatTime(seconds);
            && |r| >= 4 && r[|r| - 3] == ':'
            && (forall i :: 0 <= i < |r| && i != |r| - 3 ==> IsDigit(r[i]))
            && r[..|r| - 3] == NatToString(seconds / 60)
            && DecimalValue(r[..|r| - 3]) == seconds / 60
            && DecimalValue(r[|r| - 2..]) == seconds % 60
  {
    var m := NatToString(seconds / 60);
    var rest := seconds % 60;
    var digits := NatToString(rest);
    var ss := PadStart(digits, 2, '0');
    NatToStringValue(seconds / 60);
    NatToStringValue(rest);
    NatToStringShort(rest);
    if rest < 10 {
      assert ss == ['0'] + digits;
      assert ss[..1] == ['0'];
      assert DecimalValue(ss) == DecimalValue(ss[..1]) * 10 + DigitValue(ss[1]);
    } else {
      assert ss == digits;
    }
    var r := FormatTime(seconds);
    assert r == m + ":" + ss;
    assert r[..|r| - 3] == m;
    assert r[|r| - 2..] == ss;
  }

  /** Different second counts give different clocks. */
  lemma FormatTimeInjective(a: nat, b: nat)
    requires FormatTime(a) == FormatTime(b)
    ensures a == b
  {
    var r := FormatTime(a);
    FormatTimeShape(a);
    FormatTimeShape(b);
    var minutes, rest := DecimalValue(r[..|r| - 3]), DecimalValue(r[|r| - 2..]);
    assert a / 60 == minutes == b / 60 && a % 60 == rest == b % 60;
    assert a == 60 * minutes + rest == b;
  }

  // ---------------------------------------------------------------------------
  // calculateAccuracy

  /** A product below one multiple of a positive number has a factor at most 0. */
  lemma MulBelowOne(k: int, d: int)
    requires d > 0 && k * d < d
    ensures k <= 0
  {
  }

  lemma MulAboveMinusOne(k: int, d: int)
    requires d > 0 && -d < k * d
    ensures k >= 0
  {
  }

  /** Floor division is the one `q` with `q * d <= x < q * d + d`. */
  lemma FloorUnique(x: int, d: int, q: int)
    requires d > 0 && q * d <= x < q * d + d
    ensures x / d == q
  {
    var q0 := x / d;
    assert q0 * d <= x < q0 * d + d;
    assert (q - q0) * d == q * d - q0 * d;
    MulBelowOne(q - q0, d);
    MulAboveMinusOne(q - q0, d);
  }

  lemma DivMonotone(x1: int, x2: int, d: int)
    requires d > 0 && x1 <= x2
    ensures x1 / d <= x2 / d
  {
    var q1, q2 := x1 / d, x2 / d;
    assert q1 * d <= x1 && x2 < q2 * d + d;
    assert (q1 - q2) * d == q1 * d - q2 * d;
    MulBelowOne(q1 - q2, d);
  }

  /** `calculateAccuracy(correct, total)`: `Math.round(correct / total * 100)`
      when `total` is positive, otherwise 0. Computed over exact rationals:
      rounding half up is the floor of `100 * correct / total + 1/2`. */
  function CalculateAccuracy(correct: int, total: int): (r: int)
    ensures total <= 0 ==> r == 0
    ensures total > 0 ==> 2 * r * total <= 200 * correct + total < 2 * r * total + 2 * total
  {
    if total > 0 then (200 * correct + total) / (2 * total) else 0
  }

  /** The nearest whole percentage is unique: any `r` within half a point of
      `100 * correct / total` (ties going up) is the accuracy. */
  lemma AccuracyIsNearest(correct: int, total: int, r: int)
    requires total > 0
    requires 2 * r * total <= 200 * correct + total < 2 * r * total + 2 * total
    ensures CalculateAccuracy(correct, total) == r
  {
    assert r * (2 * total) == 2 * r * total;
    FloorUnique(200 * correct + total, 2 * total, r);
  }

  /** More correct answers never lower the accuracy. */
  lemma AccuracyMonotone(c1: int, c2: int, total: int)
    requires c1 <= c2
    ensures CalculateAccuracy(c1, total) <= CalculateAccuracy(c2, total)
  {
    if total > 0 {
      DivMonotone(200 * c1 + total, 200 * c2 + total, 2 * total);
    }
  }

  lemma MulBelowZero(k: int, d: int)
    requires d > 0 && k * d < 0
    ensures k < 0
  {
  }

  /** A floor quotient reaches `q` exactly when the dividend reaches `q * d`. */
  lemma DivAtLeast(x: int, d: int, q: int)
    requires d > 0
    ensures x / d >= q <==> x >= q * d
  {
    var f := x / d;
    assert f * d <= x < f * d + d;
    assert (q - f) * d == q * d - f * d;
    if x >= q * d {
      MulBelowOne(q - f, d);
    } else {
      MulBelowZero(f - q, d);
    }
  }

  /** Accuracy reaches `p` percent exactly when `correct / total` is at least
      `p - 1/2` hundredths. */
  lemma AccuracyAtLeast(correct: int, total: int, p: int)
    requires total > 0
    ensures CalculateAccuracy(correct, total) >= p <==> 200 * correct + total >= 2 * p * total
  {
    DivAtLeast(200 * correct + total, 2 * total, p);
    assert p * (2 * total) == 2 * p * total;
  }

  /** Between no and all questions right, accuracy is a percentage: 0 for none,
      100 for all. */
  lemma AccuracyBounds(correct: int, total: int)
    requires 0 <= correct <= total && total > 0
    ensures 0 <= CalculateAccuracy(correct, total) <= 100
    ensures correct == 0 ==> CalculateAccuracy(correct, total) == 0
    ensures correct == total ==> CalculateAccuracy(correct, total) == 100
  {
    AccuracyIsNearest(0, total, 0);
    AccuracyIsNearest(total, total, 100);
    AccuracyMonotone(0, correct, total);
    AccuracyMonotone(correct, total, total);
  }

  // ---------------------------------------------------------------------------
  // getProgressLevel

  datatype Level = Beginner | Intermediate | Advanced

  /** The levels in order. */
  function Rank(l: Level): nat {
    match l
    case Beginner => 0
    case Intermediate => 1
    case Advanced => 2
  }

  /** `getProgressLevel(score)`: below 30 a beginner, below 70 intermediate,
      from 70 on advanced. */
  function ProgressLevel(score: int): (l: Level)
    ensures l == Beginner <==> score < 30
    ensures l == Advanced <==> 70 <= score
  {
    if score < 30 then Beginner
    else if score < 70 then Intermediate
    else Advanced
  }

  /** A higher score never means a lower level. */
  lemma ProgressLevelMonotone(a: int, b: int)
    requires a <= b
    ensures Rank(ProgressLevel(a)) <= Rank(ProgressLevel(b))
  {
  }

  // ---------------------------------------------------------------------------
  // shuffleArray

  /** Exchanges two positions. */
  function SwapAt<T>(s: seq<T>, i: int, j: int): (r: seq<T>)
    requires 0 <= i < |s| && 0 <= j < |s|
    ensures |r| == |s| && r[i] == s[j] && r[j] == s[i]
    ensures forall k :: 0 <= k < |s| && k != i && k != j ==> r[k] == s[k]
  {
    s[i := s[j]][j := s[i]]
  }

  lemma SwapAtPermutes<T>(s: seq<T>, i: int, j: int)
    requires 0 <= i < |s| && 0 <= j < |s|
    ensures multiset(SwapAt(s, i, j)) == multiset(s)
  {
  }

  /** The swaps of one Fisher-Yates run, applied in order. */
  function ApplySwaps<T>(s: seq<T>, swaps: seq<(int, int)>): seq<T>
    requires forall k :: 0 <= k < |swaps| ==> 0 <= swaps[k].1 <= swaps[k].0 < |s|
    decreases |swaps|
  {
    if swaps == [] then s
    else ApplySwaps(SwapAt(s, swaps[0].0, swaps[0].1), swaps[1..])
  }

  /** Any run of swaps rearranges the elements without adding or losing one. */
  lemma {:induction false} ApplySwapsPermutes<T>(s: seq<T>, swaps: seq<(int, int)>)
    requires forall k :: 0 <= k < |swaps| ==> 0 <= swaps[k].1 <= swaps[k].0 < |s|
    ensures |ApplySwaps(s, swaps)| == |s|
    ensures multiset(ApplySwaps(s, swaps)) == multiset(s)
    decreases |swaps|
  {
    if swaps != [] {
      SwapAtPermutes(s, swaps[0].0, swaps[0].1);
      ApplySwapsPermutes(SwapAt(s, swaps[0].0, swaps[0].1), swaps[1..]);
    }
  }

  lemma {:induction false} ApplySwapsSnoc<T>(s: seq<T>, swaps: seq<(int, int)>, i: int, j: int)
    requires forall k :: 0 <= k < |swaps| ==> 0 <= swaps[k].1 <= swaps[k].0 < |s|
    requires 0 <= j <= i < |s|
    ensures |ApplySwaps(s, swaps)| == |s|
    ensures ApplySwaps(s, swaps + [(i, j)]) == SwapAt(ApplySwaps(s, swaps), i, j)
    decreases |swaps|
  {
    ApplySwapsPermutes(s, swaps);
    if swaps == [] {
      assert swaps + [(i, j)] == [(i, j)];
    } else {
      var s' := SwapAt(s, swaps[0].0, swaps[0].1);
      assert (swaps + [(i, j)])[1..] == swaps[1..] + [(i, j)];
      ApplySwapsSnoc(s', swaps[1..], i, j);
    }
  }

  /** `shuffleArray(array)`: a copy of the array, then for `i` from the last index
      down to 1 an exchange of positions `i` and `j`, with `j` drawn from `0..i`.
      The draw is left open; `swaps` records the exchanges made. */
  method ShuffleArray<T>(items: seq<T>) returns (shuffled: seq<T>, swaps: seq<(int, int)>)
    ensures |shuffled| == |items| && multiset(shuffled) == multiset(items)
    ensures |swaps| == if |items| == 0 then 0 else |items| - 1
    ensures forall k :: 0 <= k < |swaps| ==> swaps[k].0 == |items| - 1 - k && 0 <= swaps[k].1 <= swaps[k].0
    ensures forall k :: 0 <= k < |swaps| ==> 0 <= swaps[k].1 <= swaps[k].0 < |items|
    ensures shuffled == ApplySwaps(items, swaps)
  {
    shuffled := items;
    swaps := [];
    var i := |items| - 1;
    while i > 0
      invariant -1 <= i < |items| && (|items| > 0 ==> 0 <= i)
      invariant |swaps| == |items| - 1 - i
      invariant forall k :: 0 <= k < |swaps| ==> swaps[k].0 == |items| - 1 - k && 0 <= swaps[k].1 <= swaps[k].0
      invariant forall k :: 0 <= k < |swaps| ==> 0 <= swaps[k].1 <= swaps[k].0 < |items|
      invariant |shuffled| == |items| && shuffled == ApplySwaps(items, swaps)
      decreases i
    {
      var j :| 0 <= j <= i;
      ApplySwapsSnoc(items, swaps, i, j);
      shuffled := SwapAt(shuffled, i, j);
      swaps := swaps + [(i, j)];
      i := i - 1;
    }
    ApplySwapsPermutes(items, swaps);
  }

  // ---------------------------------------------------------------------------
  // Script validators

  /** The Batak-block regular expression: some character from U+1BC0 to U+1BFF. */
  function IsValidBatakText(text: string): (r: bool)
    ensures r <==> exists j :: 0 <= j < |text| && IsBatakChar(text[j])
    decreases |text|
  {
    if text == [] then false
    else IsBatakChar(text[0]) || IsValidBatakText(text[1..])
  }

  /** JavaScript's `\s`: the white-space and line-terminator characters of
      ECMAScript. */
  predicate IsJsWhitespace(c: char) {
    || c == '\t' || c == '\n' || c == '\U{000B}' || c == '\U{000C}' || c == '\r' || c == ' '
    || c == '\U{00A0}' || c == '\U{1680}' || ('\U{2000}' <= c <= '\U{200A}')
    || c == '\U{2028}' || c == '\U{2029}' || c == '\U{202F}' || c == '\U{205F}'
    || c == '\U{3000}' || c == '\U{FEFF}'
  }

  /** One character of `[a-zA-Z\s.,!?'"()-]`. */
  predicate IsLatinTextChar(c: char) {
    || ('a' <= c <= 'z') || ('A' <= c <= 'Z')
    || IsJsWhitespace(c)
    || c == '.' || c == ',' || c == '!' || c == '?' || c == '\'' || c == '"'
    || c == '(' || c == ')' || c == '-'
  }

  /** `/^[a-zA-Z\s.,!?'"()-]*$/.test(text)`: every character allowed. */
  function IsValidLatinText(text: string): (r: bool)
    ensures r <==> forall j :: 0 <= j < |text| ==> IsLatinTextChar(text[j])
    decreases |text|
  {
    if text == [] then true
    else IsLatinTextChar(text[0]) && IsValidLatinText(text[1..])
  }

  /** The empty string is valid Latin text and not Batak text. */
  lemma ValidatorsOnEmpty()
    ensures IsValidLatinText("") && !IsValidBatakText("")
  {
  }

  /** No text passes both validators: the Latin set holds no Batak character. */
  lemma ValidatorsExclusive(text: string)
    requires IsValidLatinText(text)
    ensures !IsValidBatakText(text)
  {
    forall j | 0 <= j < |text| ensures !IsBatakChar(text[j]) {
      assert IsLatinTextChar(text[j]);
    }
  }
}
