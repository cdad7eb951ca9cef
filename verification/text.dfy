/** Small string and sequence toolkit shared by the models: an Option type,
    ASCII lower-casing, the JavaScript `split(" ")` / `join(" ")` pair,
    `String.prototype.includes`, an order-preserving `filter`, and the Batak Unicode block. */
module Text {

  datatype Option<+T> = None | Some(value: T)

  /** `record[key]` (or `map.get(key)`) used as a condition: present and not the
      empty string. */
  function Lookup(m: map<string, string>, key: string): Option<string> {
    if key in m && m[key] != [] then Some(m[key]) else None
  }

  /** One entry per character; the JavaScript `toLowerCase` restricted to ASCII. */
  function LowerChar(c: char): char {
    if 'A' <= c <= 'Z' then (c as int + 32) as char else c
  }

  predicate IsUpper(c: char) {
    'A' <= c <= 'Z'
  }

  /** A code point of the Batak Unicode block, U+1BC0 to U+1BFF. */
  predicate IsBatakChar(c: char) {
    '\U{1BC0}' <= c <= '\U{1BFF}'
  }

  function Lower(s: string): (r: string)
    ensures |r| == |s|
    ensures forall i :: 0 <= i < |s| ==> r[i] == LowerChar(s[i])
    ensures forall i :: 0 <= i < |r| ==> !IsUpper(r[i])
  {
    seq(|s|, i requires 0 <= i < |s| => LowerChar(s[i]))
  }

  /** Lower-casing twice is lower-casing once. */
  lemma LowerIdempotent(s: string)
    ensures Lower(Lower(s)) == Lower(s)
  {
  }

  /** Text without upper-case letters is its own lower case. */
  lemma LowerOfLowerCase(s: string)
    requires forall i :: 0 <= i < |s| ==> !IsUpper(s[i])
    ensures Lower(s) == s
  {
  }

  /** Lower-casing works character by character, so it distributes over concatenation. */
  lemma LowerAppend(a: string, b: string)
    ensures Lower(a + b) == Lower(a) + Lower(b)
  {
  }

  /** The number of occurrences of `c` in `s`. */
  function Count(c: char, s: string): nat
    decreases |s|
  {
    if s == [] then 0 else (if s[0] == c then 1 else 0) + Count(c, s[1..])
  }

  lemma {:induction false} CountAppend(c: char, a: string, b: string)
    ensures Count(c, a + b) == Count(c, a) + Count(c, b)
    decreases |a|
  {
    if a == [] {
      assert a + b == b;
    } else {
      assert (a + b)[1..] == a[1..] + b;
      CountAppend(c, a[1..], b);
    }
  }

  /** Lower-casing neither makes nor removes a space. */
  lemma {:induction false} LowerKeepsSpaces(s: string)
    ensures Count(' ', Lower(s)) == Count(' ', s)
    decreases |s|
  {
    if s != [] {
      assert Lower(s)[1..] == Lower(s[1..]);
      LowerKeepsSpaces(s[1..]);
    }
  }

  lemma {:induction false} CountAbsent(c: char, s: string)
    requires c !in s
    ensures Count(c, s) == 0
    decreases |s|
  {
    if s != [] {
      assert c !in s[1..];
      CountAbsent(c, s[1..]);
    }
  }

  // ---------------------------------------------------------------------------
  // split(" ") and join(" ")

  /** JavaScript `s.split(" ")`: always at least one piece, empty pieces kept,
      one more piece than there are spaces. */
  function Split(s: string): (ws: seq<string>)
    ensures |ws| >= 1
    ensures forall k :: 0 <= k < |ws| ==> ' ' !in ws[k]
    decreases |s|
  {
    if s == [] then [[]]
    else
      var rest := Split(s[1..]);
      if s[0] == ' ' then [[]] + rest
      else [[s[0]] + rest[0]] + rest[1..]
  }

  /** JavaScript `ws.join(" ")`. */
  function Join(ws: seq<string>): string
    decreases |ws|
  {
    if |ws| == 0 then []
    else if |ws| == 1 then ws[0]
    else ws[0] + " " + Join(ws[1..])
  }

  /** Splitting and re-joining gives back the original text. */
  lemma {:induction false} JoinSplit(s: string)
    ensures Join(Split(s)) == s
    decreases |s|
  {
    if s != [] {
      var rest := Split(s[1..]);
      JoinSplit(s[1..]);
      if s[0] == ' ' {
        assert Split(s) == [[]] + rest;
        assert Join(Split(s)) == [] + " " + Join(rest);
      } else {
        var ws := Split(s);
        assert ws[0] == [s[0]] + rest[0];
        if |rest| == 1 {
          assert Join(ws) == [s[0]] + rest[0];
        } else {
          assert ws[1..] == rest[1..];
          assert Join(rest) == rest[0] + " " + Join(rest[1..]);
          assert Join(ws) == ([s[0]] + rest[0]) + " " + Join(rest[1..]);
        }
      }
    }
  }

  /** Joining space-free words and splitting again gives back the words. */
  lemma {:induction false} SplitJoin(ws: seq<string>)
    requires |ws| >= 1
    requires forall k :: 0 <= k < |ws| ==> ' ' !in ws[k]
    ensures Split(Join(ws)) == ws
    decreases |ws|, |ws[0]|
  {
    if |ws| == 1 {
      SplitWord(ws[0]);
    } else if ws[0] == [] {
      var tail := Join(ws[1..]);
      assert Join(ws) == [' '] + tail;
      SplitJoin(ws[1..]);
      assert Join(ws)[1..] == tail;
      assert Split(Join(ws)) == [[]] + ws[1..];
    } else {
      var c := ws[0][0];
      var ws' := [ws[0][1..]] + ws[1..];
      assert ws'[1..] == ws[1..];
      assert ws'[0] == ws[0][1..];
      assert forall k :: 0 <= k < |ws'| ==> ' ' !in ws'[k] by {
        forall k | 0 <= k < |ws'| ensures ' ' !in ws'[k] {
          if k == 0 {
            assert ' ' !in ws[0];
          } else {
            assert ws'[k] == ws[k];
          }
        }
      }
      SplitJoin(ws');
      assert Join(ws) == [c] + Join(ws');
      assert Join(ws)[1..] == Join(ws');
      assert c != ' ' by { assert c in ws[0]; }
      assert [c] + ws[0][1..] == ws[0];
    }
  }

  /** A word without spaces is a single piece. */
  lemma {:induction false} SplitWord(w: string)
    requires ' ' !in w
    ensures Split(w) == [w]
    decreases |w|
  {
    if w != [] {
      assert ' ' !in w[1..];
      SplitWord(w[1..]);
      assert [w[0]] + w[1..] == w;
    }
  }

  lemma {:induction false} JoinAppend(xs: seq<string>, ys: seq<string>)
    requires |xs| >= 1 && |ys| >= 1
    ensures Join(xs + ys) == Join(xs) + " " + Join(ys)
    decreases |xs|
  {
    if |xs| == 1 {
      assert (xs + ys)[1..] == ys;
    } else {
      assert (xs + ys)[1..] == xs[1..] + ys;
      JoinAppend(xs[1..], ys);
    }
  }

  /** Text on either side of a space is split independently. */
  lemma SplitAroundSpace(a: string, b: string)
    ensures Split(a + " " + b) == Split(a) + Split(b)
  {
    var ws := Split(a) + Split(b);
    JoinAppend(Split(a), Split(b));
    JoinSplit(a);
    JoinSplit(b);
    assert forall k :: 0 <= k < |ws| ==> ' ' !in ws[k] by {
      forall k | 0 <= k < |ws| ensures ' ' !in ws[k] {
        if k < |Split(a)| { assert ws[k] == Split(a)[k]; }
        else { assert ws[k] == Split(b)[k - |Split(a)|]; }
      }
    }
    SplitJoin(ws);
  }

  /** Spaces in a join: the words' own plus one per gap. */
  lemma {:induction false} CountJoin(ws: seq<string>)
    requires |ws| >= 1
    requires forall k :: 0 <= k < |ws| ==> ' ' !in ws[k]
    ensures Count(' ', Join(ws)) == |ws| - 1
    decreases |ws|
  {
    CountAbsent(' ', ws[0]);
    if |ws| > 1 {
      CountJoin(ws[1..]);
      CountAppend(' ', ws[0] + " ", Join(ws[1..]));
      CountAppend(' ', ws[0], " ");
    }
  }

  // ---------------------------------------------------------------------------
  // includes

  predicate OccursAt(s: string, sub: string, i: int) {
    0 <= i && i + |sub| <= |s| && s[i..i + |sub|] == sub
  }

  /** JavaScript `s.includes(sub)`, scanning start positions left to right. */
  function Contains(s: string, sub: string): (r: bool)
    ensures r <==> exists i :: OccursAt(s, sub, i)
    decreases |s|
  {
    if |sub| > |s| then false
    else if s[..|sub|] == sub then
      assert OccursAt(s, sub, 0);
      true
    else if s == [] then false
    else
      var r := Contains(s[1..], sub);
      assert r ==> exists i :: OccursAt(s, sub, i) by {
        if r {
          var i :| OccursAt(s[1..], sub, i);
          assert s[1..][i..i + |sub|] == s[i + 1..i + 1 + |sub|];
          assert OccursAt(s, sub, i + 1);
        }
      }
      assert (exists i :: OccursAt(s, sub, i)) ==> r by {
        if exists i :: OccursAt(s, sub, i) {
          var i :| OccursAt(s, sub, i);
          assert i != 0;
          assert s[1..][i - 1..i - 1 + |sub|] == s[i..i + |sub|];
          assert OccursAt(s[1..], sub, i - 1);
        }
      }
      r
  }

  // ---------------------------------------------------------------------------
  // filter and subsequences

  /** `r` can be obtained from `s` by deleting elements, keeping order. */
  ghost predicate Subsequence<T>(r: seq<T>, s: seq<T>)
    decreases |s|
  {
    if r == [] then true
    else if s == [] then false
    else if r[0] == s[0] then Subsequence(r[1..], s[1..])
    else Subsequence(r, s[1..])
  }

  /** JavaScript `s.filter(p)`: exactly the elements that pass, in their original order. */
  function Filter<T(==)>(s: seq<T>, p: T -> bool): (r: seq<T>)
    ensures forall k :: 0 <= k < |r| ==> p(r[k])
    ensures forall k :: 0 <= k < |s| && p(s[k]) ==> s[k] in r
    ensures |r| <= |s|
    decreases |s|
  {
    if s == [] then []
    else
      var rest := Filter(s[1..], p);
      if p(s[0]) then [s[0]] + rest else rest
  }

  /** The filter keeps the order of what it keeps. */
  lemma {:induction false} FilterIsSubsequence<T>(s: seq<T>, p: T -> bool)
    ensures Subsequence(Filter(s, p), s)
    decreases |s|
  {
    if s != [] {
      FilterIsSubsequence(s[1..], p);
      var rest := Filter(s[1..], p);
      if p(s[0]) {
        assert ([s[0]] + rest)[1..] == rest;
      } else if rest != [] {
        SubsequenceSkip(rest, s);
      }
    }
  }

  /** Everything the filter keeps comes from the input. */
  lemma {:induction false} FilterDrawsFrom<T>(s: seq<T>, p: T -> bool)
    ensures forall k :: 0 <= k < |Filter(s, p)| ==> Filter(s, p)[k] in s
    decreases |s|
  {
    if s != [] {
      FilterDrawsFrom(s[1..], p);
      var rest := Filter(s[1..], p);
      forall k | 0 <= k < |rest| ensures rest[k] in s {
        assert rest[k] in s[1..];
      }
    }
  }

  /** A subsequence of the tail is a subsequence of the whole. */
  lemma {:induction false} SubsequenceSkip<T>(r: seq<T>, s: seq<T>)
    requires s != [] && Subsequence(r, s[1..])
    ensures Subsequence(r, s)
    decreases |s|, 0
  {
    if r != [] && r[0] == s[0] {
      SubsequenceDropHead(r, s[1..]);
    }
  }

  /** Dropping the first element of a subsequence leaves a subsequence. */
  lemma {:induction false} SubsequenceDropHead<T>(r: seq<T>, t: seq<T>)
    requires r != [] && Subsequence(r, t)
    ensures Subsequence(r[1..], t)
    decreases |t|, 1
  {
    if r[0] == t[0] {
      if r[1..] != [] {
        SubsequenceSkip(r[1..], t);
      }
    } else {
      SubsequenceDropHead(r, t[1..]);
      SubsequenceSkip(r[1..], t);
    }
  }

  /** Filtering with a test that everything passes returns the sequence unchanged. */
  lemma {:induction false} FilterAll<T>(s: seq<T>, p: T -> bool)
    requires forall k :: 0 <= k < |s| ==> p(s[k])
    ensures Filter(s, p) == s
    decreases |s|
  {
    if s != [] {
      FilterAll(s[1..], p);
    }
  }

  /** Filtering with a test that nothing passes returns the empty sequence. */
  lemma {:induction false} FilterNone<T>(s: seq<T>, p: T -> bool)
    requires forall k :: 0 <= k < |s| ==> !p(s[k])
    ensures Filter(s, p) == []
    decreases |s|
  {
    if s != [] {
      FilterNone(s[1..], p);
    }
  }

  /** Filtering a concatenation filters each part. */
  lemma {:induction false} FilterAppend<T>(a: seq<T>, b: seq<T>, p: T -> bool)
    ensures Filter(a + b, p) == Filter(a, p) + Filter(b, p)
    decreases |a|
  {
    if a == [] {
      assert a + b == b;
    } else {
      assert (a + b)[1..] == a[1..] + b;
      FilterAppend(a[1..], b, p);
    }
  }

  /** The first `n` elements all pass: the filter keeps all of them. */
  lemma FilterPrefixAll<T>(s: seq<T>, n: int, p: T -> bool)
    requires 0 <= n <= |s|
    requires forall k :: 0 <= k < n ==> p(s[k])
    ensures Filter(s[..n], p) == s[..n]
  {
    var head := s[..n];
    forall k | 0 <= k < |head| ensures p(head[k]) { assert head[k] == s[k]; }
    FilterAll(head, p);
  }

  /** The first `n` elements all fail: the filter keeps none of them. */
  lemma FilterPrefixNone<T>(s: seq<T>, n: int, p: T -> bool)
    requires 0 <= n <= |s|
    requires forall k :: 0 <= k < n ==> !p(s[k])
    ensures Filter(s[..n], p) == []
  {
    var head := s[..n];
    forall k | 0 <= k < |head| ensures !p(head[k]) { assert head[k] == s[k]; }
    FilterNone(head, p);
  }

  /** The elements from `n` on all pass: the filter keeps all of them. */
  lemma FilterSuffixAll<T>(s: seq<T>, n: int, p: T -> bool)
    requires 0 <= n <= |s|
    requires forall k :: n <= k < |s| ==> p(s[k])
    ensures Filter(s[n..], p) == s[n..]
  {
    var tail := s[n..];
    forall k | 0 <= k < |tail| ensures p(tail[k]) { assert tail[k] == s[n + k]; }
    FilterAll(tail, p);
  }

  /** The elements from `n` on all fail: the filter keeps none of them. */
  lemma FilterSuffixNone<T>(s: seq<T>, n: int, p: T -> bool)
    requires 0 <= n <= |s|
    requires forall k :: n <= k < |s| ==> !p(s[k])
    ensures Filter(s[n..], p) == []
  {
    var tail := s[n..];
    forall k | 0 <= k < |tail| ensures !p(tail[k]) { assert tail[k] == s[n + k]; }
    FilterNone(tail, p);
  }

  /** When exactly the first `n` elements pass, the filter keeps that prefix. */
  lemma FilterKeepsPrefix<T>(s: seq<T>, n: int, p: T -> bool)
    requires 0 <= n <= |s|
    requires forall k :: 0 <= k < n ==> p(s[k])
    requires forall k :: n <= k < |s| ==> !p(s[k])
    ensures Filter(s, p) == s[..n]
  {
    assert s == s[..n] + s[n..];
    FilterAppend(s[..n], s[n..], p);
    FilterPrefixAll(s, n, p);
    FilterSuffixNone(s, n, p);
    assert s[..n] + [] == s[..n];
  }

  /** When exactly the elements from `n` on pass, the filter keeps that suffix. */
  lemma FilterKeepsSuffix<T>(s: seq<T>, n: int, p: T -> bool)
    requires 0 <= n <= |s|
    requires forall k :: 0 <= k < n ==> !p(s[k])
    requires forall k :: n <= k < |s| ==> p(s[k])
    ensures Filter(s, p) == s[n..]
  {
    assert s == s[..n] + s[n..];
    FilterAppend(s[..n], s[n..], p);
    FilterPrefixNone(s, n, p);
    FilterSuffixAll(s, n, p);
    assert [] + s[n..] == s[n..];
  }

  /** Two tests that agree on every element filter alike. */
  lemma {:induction false} FilterSameTest<T>(s: seq<T>, p: T -> bool, q: T -> bool)
    requires forall k :: 0 <= k < |s| ==> p(s[k]) == q(s[k])
    ensures Filter(s, p) == Filter(s, q)
    decreases |s|
  {
    if s != [] {
      FilterSameTest(s[1..], p, q);
    }
  }

  /** JavaScript `s.find(p)`: the first element that passes, if any. */
  function Find<T>(s: seq<T>, p: T -> bool): (r: Option<T>)
    ensures r.None? <==> forall k :: 0 <= k < |s| ==> !p(s[k])
    ensures r.Some? ==> exists k :: 0 <= k < |s| && s[k] == r.value && p(s[k])
                                    && forall k' :: 0 <= k' < k ==> !p(s[k'])
    decreases |s|
  {
    if s == [] then None
    else if p(s[0]) then Some(s[0])
    else
      var r := Find(s[1..], p);
      assert r.Some? ==> exists k :: 0 <= k < |s| && s[k] == r.value && p(s[k])
                                      && forall k' :: 0 <= k' < k ==> !p(s[k']) by {
        if r.Some? {
          var k :| 0 <= k < |s[1..]| && s[1..][k] == r.value && p(s[1..][k])
                   && forall k' :: 0 <= k' < k ==> !p(s[1..][k']);
          assert forall k' :: 0 <= k' < k + 1 ==> !p(s[k']) by {
            forall k' | 0 <= k' < k + 1 ensures !p(s[k']) {
              if k' > 0 { assert s[k'] == s[1..][k' - 1]; }
            }
          }
        }
      }
      r
  }

  /** The pieces laid end to end: `pieces.join("")`. */
  function Concat<T>(pieces: seq<seq<T>>): seq<T>
    decreases |pieces|
  {
    if pieces == [] then [] else pieces[0] + Concat(pieces[1..])
  }

  lemma {:induction false} ConcatAppend<T>(xs: seq<seq<T>>, ys: seq<seq<T>>)
    ensures Concat(xs + ys) == Concat(xs) + Concat(ys)
    decreases |xs|
  {
    if xs != [] {
      assert (xs + ys)[1..] == xs[1..] + ys;
      ConcatAppend(xs[1..], ys);
    } else {
      assert xs + ys == ys;
    }
  }
}
