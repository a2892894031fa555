/** String puzzles solved with sets and maps: symmetric two-letter word
    pairs found with a set of words already seen, and anagrams decided by
    comparing case-folded, space-free character counts. */
module SetsAndMaps {
  import opened Exceptions

  // ---------------------------------------------------------------------
  // Symmetric pairs

  /** Every word up to position `n` has the two letters the pair search
      reads. */
  predicate PairableUpTo(words: seq<string>, n: int) {
    0 <= n <= |words| && forall i :: 0 <= i < n ==> |words[i]| >= 2
  }

  /** The two-letter reverse of the first two letters of `word`. */
  function Reverse2(word: string): (r: string)
    requires |word| >= 2
    ensures |r| == 2 && r[0] == word[1] && r[1] == word[0]
  {
    [word[1], word[0]]
  }

  /** How a pair is reported: the later word, " & ", then the reverse. */
  function PairText(word: string): (t: string)
    requires |word| >= 2
    ensures |t| == |word| + 5
    ensures t[..|word|] == word && t[|word|..|word| + 3] == " & "
    ensures t[|word| + 3..] == Reverse2(word)
  {
    word + " & " + Reverse2(word)
  }

  /** Word `j` completes a pair: its first two letters differ and their
      reverse is an earlier word. */
  predicate CompletesPair(words: seq<string>, j: int)
    requires 0 <= j < |words| && PairableUpTo(words, j + 1)
  {
    words[j][0] != words[j][1] && exists i :: 0 <= i < j && words[i] == Reverse2(words[j])
  }

  /** The positions below `n` of the words that complete a pair, in
      increasing order. */
  function PairPositions(words: seq<string>, n: int): (ps: seq<int>)
    requires PairableUpTo(words, n)
    ensures forall k :: 0 <= k < |ps| ==> 0 <= ps[k] < n && CompletesPair(words, ps[k])
    ensures forall k, l :: 0 <= k < l < |ps| ==> ps[k] < ps[l]
    decreases n
  {
    if n == 0 then []
    else PairPositions(words, n - 1) + (if CompletesPair(words, n - 1) then [n - 1] else [])
  }

  /** Every word below `n` that completes a pair has its position listed. */
  lemma {:induction false} PairPositionsComplete(words: seq<string>, n: int, j: int)
    requires PairableUpTo(words, n) && 0 <= j < n && CompletesPair(words, j)
    ensures j in PairPositions(words, n)
    decreases n
  {
    var ps := PairPositions(words, n);
    if j < n - 1 {
      PairPositionsComplete(words, n - 1, j);
      assert ps[..|PairPositions(words, n - 1)|] == PairPositions(words, n - 1);
    } else {
      assert ps == PairPositions(words, n - 1) + [j];
    }
  }

  /** The reports for the words below `n`, one per position that completes
      a pair, in the same order. */
  function Pairs(words: seq<string>, n: int): (r: seq<string>)
    requires PairableUpTo(words, n)
    ensures |r| == |PairPositions(words, n)|
    ensures forall k :: 0 <= k < |r| ==> r[k] == PairText(words[PairPositions(words, n)[k]])
    decreases n
  {
    if n == 0 then []
    else Pairs(words, n - 1) + (if CompletesPair(words, n - 1) then [PairText(words[n - 1])] else [])
  }

  /** The words seen so far that go into the set: those below `n` whose
      first two letters differ. */
  function SeenWords(words: seq<string>, n: int): set<string>
    requires PairableUpTo(words, n)
  {
    set i | 0 <= i < n && words[i][0] != words[i][1] :: words[i]
  }

  /** The reverse of a word with two different letters was seen exactly when
      it occurs among the earlier words. */
  lemma SeenReverse(words: seq<string>, n: nat)
    requires PairableUpTo(words, n + 1) && n < |words|
    requires words[n][0] != words[n][1]
    ensures Reverse2(words[n]) in SeenWords(words, n) <==> CompletesPair(words, n)
  {
    var reverse := Reverse2(words[n]);
    if i :| 0 <= i < n && words[i] == reverse {
      assert words[i][0] != words[i][1];
    }
  }

  /** Reports each word whose two-letter reverse came earlier as "word &
      reverse", in input order; words whose first two letters are equal are
      skipped and never remembered; a word shorter than two characters
      throws. */
  method FindPairs(words: seq<string>) returns (r: Result<seq<string>>)
    ensures r.Failure? <==> !PairableUpTo(words, |words|)
    ensures r.Failure? ==> r.error == IndexOutOfRange
    ensures r.Success? ==> PairableUpTo(words, |words|) && r.value == Pairs(words, |words|)
  {
    var result: seq<string> := [];
    var seen: set<string> := {};
    for n := 0 to |words|
      invariant PairableUpTo(words, n)
      invariant seen == SeenWords(words, n)
      invariant result == Pairs(words, n)
    {
      var word := words[n];
      if |word| < 2 {
        return Failure(IndexOutOfRange);
      }
      if word[0] == word[1] {
        continue;
      }
      var reverse := [word[1], word[0]];
      SeenReverse(words, n);
      if reverse in seen {
        result := result + [word + " & " + reverse];
      }
      seen := seen + {word};
    }
    return Success(result);
  }

  /** No report is for a word whose first two letters are equal. */
  lemma PairsNeverSameLetters(words: seq<string>, k: int)
    requires PairableUpTo(words, |words|) && 0 <= k < |Pairs(words, |words|)|
    ensures var w := words[PairPositions(words, |words|)[k]]; w[0] != w[1]
  {
  }

  /** Every word whose first two letters differ and whose two-letter
      reverse came earlier is reported. */
  lemma PairsComplete(words: seq<string>, j: int)
    requires PairableUpTo(words, |words|) && 0 <= j < |words| && CompletesPair(words, j)
    ensures PairText(words[j]) in Pairs(words, |words|)
  {
    PairPositionsComplete(words, |words|, j);
    var k :| 0 <= k < |PairPositions(words, |words|)| && PairPositions(words, |words|)[k] == j;
    assert Pairs(words, |words|)[k] == PairText(words[j]);
  }

  /** With letters x, y, z all different, the words xy, xz, xx, yx give
      one report, "yx & xy": xz has no partner and xx is skipped. */
  method FindPairsExample(x: char, y: char, z: char) returns (r: Result<seq<string>>)
    requires x != y && x != z && y != z
    ensures r == Success([[y, x] + " & " + [x, y]])
  {
    r := FindPairs([[x, y], [x, z], [x, x], [y, x]]);
    PairsExample(x, y, z);
  }

  /** The reports of the example above, from the definition. */
  lemma PairsExample(x: char, y: char, z: char)
    requires x != y && x != z && y != z
    ensures PairableUpTo([[x, y], [x, z], [x, x], [y, x]], 4)
    ensures Pairs([[x, y], [x, z], [x, x], [y, x]], 4) == [[y, x] + " & " + [x, y]]
  {
    var words := [[x, y], [x, z], [x, x], [y, x]];
    assert PairableUpTo(words, |words|);
    assert Pairs(words, 3) == [] by {
      assert !CompletesPair(words, 0) && !CompletesPair(words, 1) && !CompletesPair(words, 2);
    }
    assert CompletesPair(words, 3) by {
      assert words[0] == Reverse2(words[3]);
    }
    assert Pairs(words, 4) == [PairText(words[3])];
  }

  // ---------------------------------------------------------------------
  // Character frequencies and anagrams

  /** Lower-casing of one character, for the ASCII letters. */
  function LowerChar(c: char): (l: char)
    ensures 'A' <= c <= 'Z' ==> l as int == c as int + 32
    ensures !('A' <= c <= 'Z') ==> l == c
  {
    if 'A' <= c <= 'Z' then (c as int + 32) as char else c
  }

  function ToLower(s: string): (t: string)
    ensures |t| == |s| && forall i :: 0 <= i < |s| ==> t[i] == LowerChar(s[i])
  {
    seq(|s|, i requires 0 <= i < |s| => LowerChar(s[i]))
  }

  /** `s` without its spaces, in order. */
  function WithoutSpaces(s: string): (t: string)
    ensures ' ' !in t
    ensures |t| <= |s|
    decreases |s|
  {
    if s == [] then []
    else WithoutSpaces(s[..|s| - 1]) + (if s[|s| - 1] == ' ' then [] else [s[|s| - 1]])
  }

  /** The characters that are counted: lower-cased, spaces dropped. */
  function Folded(word: string): string {
    WithoutSpaces(ToLower(word))
  }

  /** The counts built up character by character: a space is skipped,
      any other character has its count raised by one, starting from one. */
  function Frequencies(s: string): map<char, int>
    decreases |s|
  {
    if s == [] then map[]
    else
      var m, c := Frequencies(s[..|s| - 1]), s[|s| - 1];
      if c == ' ' then m
      else if c in m then m[c := m[c] + 1]
      else m[c := 1]
  }

  /** The counts have a key for exactly the characters of `s` other than
      space, and each key maps to the number of its occurrences. */
  lemma {:induction false} FrequenciesCount(s: string)
    ensures forall c :: c in Frequencies(s) <==> c in multiset(WithoutSpaces(s))
    ensures forall c :: c in Frequencies(s) ==> Frequencies(s)[c] == multiset(WithoutSpaces(s))[c]
    decreases |s|
  {
    if s != [] {
      var init, c := s[..|s| - 1], s[|s| - 1];
      FrequenciesCount(init);
      var added := if c == ' ' then [] else [c];
      assert WithoutSpaces(s) == WithoutSpaces(init) + added;
      assert multiset(WithoutSpaces(s)) == multiset(WithoutSpaces(init)) + multiset(added);
    }
  }

  /** Two strings have the same counts exactly when their characters other
      than space are the same multiset. */
  lemma FrequenciesEqual(s1: string, s2: string)
    ensures Frequencies(s1) == Frequencies(s2) <==> multiset(WithoutSpaces(s1)) == multiset(WithoutSpaces(s2))
  {
    var m1, m2 := multiset(WithoutSpaces(s1)), multiset(WithoutSpaces(s2));
    var f1, f2 := Frequencies(s1), Frequencies(s2);
    FrequenciesCount(s1);
    FrequenciesCount(s2);
    if f1 == f2 {
      forall c ensures m1[c] == m2[c] {
        if c !in f1 {
          assert c !in m1 && c !in m2;
        }
      }
      assert m1 == m2;
    }
  }

  /** Counts each lower-cased character of `word` other than space: the
      map has a key for every such character and its number of
      occurrences. */
  method BuildCharFrequency(word: string) returns (dict: map<char, int>)
    ensures dict == Frequencies(ToLower(word))
  {
    dict := map[];
    var lowered := ToLower(word);
    for i := 0 to |lowered|
      invariant dict == Frequencies(lowered[..i])
    {
      assert lowered[..i + 1][..i] == lowered[..i];
      var c := lowered[i];
      if c == ' ' {
        continue;
      }
      if c in dict {
        dict := dict[c := dict[c] + 1];
      } else {
        dict := dict[c := 1];
      }
    }
    assert lowered[..|lowered|] == lowered;
  }

  /** Two character counts agree in the way the source compares them: the
      same number of keys, and every pair of the first is in the second. */
  predicate SameCounts(d1: map<char, int>, d2: map<char, int>) {
    |d1| == |d2| && forall c :: c in d1 ==> c in d2 && d2[c] == d1[c]
  }

  /** That comparison is map equality. */
  lemma SameCountsIsEquality(d1: map<char, int>, d2: map<char, int>)
    ensures SameCounts(d1, d2) <==> d1 == d2
  {
    if SameCounts(d1, d2) {
      var k1, k2 := d1.Keys, d2.Keys;
      assert k1 <= k2;
      assert |k2 - k1| == |k2| - |k1| == 0 by {
        assert k2 == k1 + (k2 - k1);
      }
      assert k2 - k1 == {};
      assert k1 == k2;
    }
  }

  /** Whether the two words are anagrams: the same counts of each
      character, ignoring spaces and letter case. */
  method IsAnagram(word1: string, word2: string) returns (b: bool)
    ensures b <==> multiset(Folded(word1)) == multiset(Folded(word2))
  {
    var dict1 := BuildCharFrequency(word1);
    var dict2 := BuildCharFrequency(word2);
    b := |dict1| == |dict2| && forall c | c in dict1 :: c in dict2 && dict2[c] == dict1[c];
    assert b <==> SameCounts(dict1, dict2);
    SameCountsIsEquality(dict1, dict2);
    FrequenciesEqual(ToLower(word1), ToLower(word2));
  }

  /** The sum of the counts of the keys listed in `keys`. */
  function SumOver(m: map<char, int>, keys: seq<char>): int
    requires forall k :: 0 <= k < |keys| ==> keys[k] in m
  {
    if keys == [] then 0 else m[keys[0]] + SumOver(m, keys[1..])
  }

  /** `keys` lists each key of `m` exactly once. */
  predicate EnumeratesKeys(m: map<char, int>, keys: seq<char>) {
    && (forall c :: c in m <==> c in keys)
    && (forall i, j :: 0 <= i < j < |keys| ==> keys[i] != keys[j])
  }

  /** `n` copies of `c`. */
  function Copies(c: char, n: nat): (ms: multiset<char>)
    ensures ms[c] == n && |ms| == n
    ensures forall d :: d != c ==> ms[d] == 0
  {
    if n == 0 then multiset{} else Copies(c, n - 1) + multiset{c}
  }

  /** A multiset is its copies of `c` plus everything else. */
  lemma SplitOff(ms: multiset<char>, c: char)
    ensures ms == ms[c := 0] + Copies(c, ms[c])
    ensures |ms| == |ms[c := 0]| + ms[c]
  {
    assert forall d :: ms[d] == (ms[c := 0] + Copies(c, ms[c]))[d];
  }

  /** The counts listed in `keys` are the multiplicities of the elements
      of `ms`, which has no other elements, so they add up to its size. */
  lemma {:induction false} SumOverIsSize(m: map<char, int>, keys: seq<char>, ms: multiset<char>)
    requires forall i, j :: 0 <= i < j < |keys| ==> keys[i] != keys[j]
    requires forall k :: 0 <= k < |keys| ==> keys[k] in m && m[keys[k]] == ms[keys[k]]
    requires forall c :: c in ms ==> c in keys
    ensures SumOver(m, keys) == |ms|
  {
    if keys == [] {
      assert forall c :: ms[c] == 0;
      assert ms == multiset{};
    } else {
      var c := keys[0];
      SplitOff(ms, c);
      var rest := ms[c := 0];
      assert forall d :: d in rest ==> d in keys[1..] by {
        forall d | d in rest ensures d in keys[1..] {
          assert d in keys && d != c;
        }
      }
      SumOverIsSize(m, keys[1..], rest);
    }
  }

  /** Without spaces, the string is as long as its characters other than
      space. */
  lemma {:induction false} WithoutSpacesLength(s: string)
    ensures |WithoutSpaces(s)| == |s| - multiset(s)[' ']
    decreases |s|
  {
    if s != [] {
      WithoutSpacesLength(s[..|s| - 1]);
      assert s == s[..|s| - 1] + [s[|s| - 1]];
    }
  }

  /** Dropping spaces keeps every other character, as often as it occurs. */
  lemma {:induction false} WithoutSpacesKeeps(s: string)
    ensures multiset(WithoutSpaces(s)) == multiset(s)[' ' := 0]
    decreases |s|
  {
    if s != [] {
      WithoutSpacesKeeps(s[..|s| - 1]);
      assert s == s[..|s| - 1] + [s[|s| - 1]];
    }
  }

  /** However the keys are listed, the counts of a word add up to the
      number of its characters other than space. */
  lemma FrequenciesTotal(s: string, keys: seq<char>)
    requires EnumeratesKeys(Frequencies(s), keys)
    ensures SumOver(Frequencies(s), keys) == |s| - multiset(s)[' ']
  {
    FrequenciesCount(s);
    SumOverIsSize(Frequencies(s), keys, multiset(WithoutSpaces(s)));
    WithoutSpacesLength(s);
  }

  /** Whether `w1` and `w2` are anagrams, ignoring spaces and case. */
  predicate Anagrams(w1: string, w2: string) {
    multiset(Folded(w1)) == multiset(Folded(w2))
  }

  /** Upper-casing of one character, for the ASCII letters. */
  function UpperChar(c: char): char {
    if 'a' <= c <= 'z' then (c as int - 32) as char else c
  }

  function ToUpper(s: string): (t: string)
    ensures |t| == |s| && forall i :: 0 <= i < |s| ==> t[i] == UpperChar(s[i])
  {
    seq(|s|, i requires 0 <= i < |s| => UpperChar(s[i]))
  }

  /** Dropping spaces from a concatenation drops them from each part. */
  lemma {:induction false} WithoutSpacesAppend(a: string, b: string)
    ensures WithoutSpaces(a + b) == WithoutSpaces(a) + WithoutSpaces(b)
    decreases |b|
  {
    if b == [] {
      assert a + b == a;
    } else {
      var init := b[..|b| - 1];
      assert (a + b)[..|a + b| - 1] == a + init;
      WithoutSpacesAppend(a, init);
    }
  }

  /** Upper-casing a word does not change its folded characters. */
  lemma FoldedIgnoresCase(w: string)
    ensures Folded(ToUpper(w)) == Folded(w)
  {
    assert ToLower(ToUpper(w)) == ToLower(w);
  }

  /** Lower-casing a concatenation lower-cases each part. */
  lemma ToLowerAppend(a: string, b: string)
    ensures ToLower(a + b) == ToLower(a) + ToLower(b)
  {
  }

  /** A lone space disappears when spaces are dropped. */
  lemma WithoutSpacesAroundSpace(x: string, y: string)
    ensures WithoutSpaces(x + " " + y) == WithoutSpaces(x) + WithoutSpaces(y)
  {
    var xs := x + " ";
    assert xs[..|xs| - 1] == x && xs[|xs| - 1] == ' ';
    assert WithoutSpaces(xs) == WithoutSpaces(x);
    WithoutSpacesAppend(xs, y);
  }

  /** Lower-casing leaves a space in place. */
  lemma ToLowerAroundSpace(a: string, b: string)
    ensures ToLower(a + " " + b) == ToLower(a) + " " + ToLower(b)
  {
    ToLowerAppend(a, " ");
    ToLowerAppend(a + " ", b);
    assert ToLower(" ") == " ";
  }

  /** A space inside a word does not change its folded characters. */
  lemma FoldedIgnoresSpace(a: string, b: string)
    ensures Folded(a + " " + b) == Folded(a + b)
  {
    ToLowerAroundSpace(a, b);
    WithoutSpacesAroundSpace(ToLower(a), ToLower(b));
    ToLowerAppend(a, b);
    WithoutSpacesAppend(ToLower(a), ToLower(b));
  }

  /** Being anagrams is symmetric, and insensitive to letter case and to
      spaces. */
  lemma AnagramsProperties(w1: string, w2: string, a: string, b: string)
    ensures Anagrams(w1, w2) <==> Anagrams(w2, w1)
    ensures Anagrams(w1, w2) <==> Anagrams(ToUpper(w1), w2)
    ensures Anagrams(a + " " + b, w2) <==> Anagrams(a + b, w2)
  {
    FoldedIgnoresCase(w1);
    FoldedIgnoresSpace(a, b);
  }
}
