/** The anagram dictionary of the Anagrams game: a corpus of words loaded once from the lines
    of a word file, an index from each word's signature (its letters in ascending order) to the
    family of corpus words with that signature, and read-only queries over that index. */
module Anagrams {
  import opened JavaLang
  import opened Wrappers

  /** A starter word needs strictly more than this many words in its family. */
  const MIN_NUM_ANAGRAMS := 5

  /** The letter the loops over `i` in [0, 26) append: `(char)(i + 97)`. */
  function Letter(i: int): (c: char)
    requires 0 <= i < 26
    ensures 'a' <= c <= 'z'
  {
    (i + 97) as char
  }

  predicate IsLowercase(c: char) {
    'a' <= c <= 'z'
  }

  // ---------------------------------------------------------------------------
  // Signatures: sortString

  predicate SortedChars(s: string) {
    forall i, j :: 0 <= i < j < |s| ==> s[i] <= s[j]
  }

  /** Every character of s is at least c. */
  predicate AllAtLeast(c: char, s: string) {
    forall k :: 0 <= k < |s| ==> c <= s[k]
  }

  lemma ConsSorted(c: char, s: string)
    requires SortedChars(s) && AllAtLeast(c, s)
    ensures SortedChars([c] + s)
  {
    var r := [c] + s;
    forall i, j | 0 <= i < j < |r|
      ensures r[i] <= r[j]
    {
      assert r[j] == s[j - 1];
    }
  }

  lemma AtLeastByMultiset(c: char, s: string, t: string)
    requires multiset(s) == multiset(t) && AllAtLeast(c, t)
    ensures AllAtLeast(c, s)
  {
    forall k | 0 <= k < |s|
      ensures c <= s[k]
    {
      assert s[k] in multiset(t);
    }
  }

  /** Inserts c before the first character of s that is not smaller than c. */
  function InsertSorted(c: char, s: string): string
  {
    if s == [] || c <= s[0] then [c] + s else [s[0]] + InsertSorted(c, s[1..])
  }

  /** The tail of an ascending string is ascending and bounded below by its head. */
  lemma SortedTail(s: string)
    requires s != [] && SortedChars(s)
    ensures SortedChars(s[1..]) && AllAtLeast(s[0], s[1..])
  {
    forall i, j | 0 <= i < j < |s| - 1
      ensures s[1..][i] <= s[1..][j]
    {
      assert s[1..][i] == s[i + 1] && s[1..][j] == s[j + 1];
    }
  }

  /** A non-empty string's letters are its head's plus its tail's. */
  lemma HeadTail(s: string)
    requires s != []
    ensures s == [s[0]] + s[1..]
    ensures multiset(s) == multiset{s[0]} + multiset(s[1..])
  {
    assert s == [s[0]] + s[1..];
  }

  lemma CharsAtLeast(b: char, c: char, s: string)
    requires b <= c && AllAtLeast(b, s)
    ensures AllAtLeast(b, [c] + s)
    ensures multiset([c] + s) == multiset(s) + multiset{c}
  {
    assert forall k :: 1 <= k < |[c] + s| ==> ([c] + s)[k] == s[k - 1];
  }

  /** Inserting into an ascending string keeps it ascending and adds exactly c. */
  lemma {:induction false} InsertSortedSpec(c: char, s: string)
    requires SortedChars(s)
    ensures SortedChars(InsertSorted(c, s))
    ensures multiset(InsertSorted(c, s)) == multiset(s) + multiset{c}
  {
    if s == [] || c <= s[0] {
      ConsSorted(c, s);
    } else {
      var rest := InsertSorted(c, s[1..]);
      HeadTail(s);
      SortedTail(s);
      InsertSortedSpec(c, s[1..]);
      CharsAtLeast(s[0], c, s[1..]);
      AtLeastByMultiset(s[0], rest, [c] + s[1..]);
      ConsSorted(s[0], rest);
    }
  }

  /** sortString: the characters of `s` in ascending order (Arrays.sort on a copy of the
      char array), computed here by insertion sort. Any correct sort gives this same string;
      see SortedPermutationUnique. */
  function SortString(s: string): string
  {
    if s == [] then [] else InsertSorted(s[0], SortString(s[1..]))
  }

  /** sortString returns its input's letters, with their counts, in ascending order. */
  lemma {:induction false} SortedSortString(s: string)
    ensures SortedChars(SortString(s))
    ensures multiset(SortString(s)) == multiset(s)
  {
    if s != [] {
      assert s == [s[0]] + s[1..];
      SortedSortString(s[1..]);
      InsertSortedSpec(s[0], SortString(s[1..]));
    }
  }

  /** Two ascending strings with the same letters, counted with multiplicity, are equal:
      the signature does not depend on how the sort is carried out. */
  lemma {:induction false} SortedPermutationUnique(a: string, b: string)
    requires SortedChars(a) && SortedChars(b)
    requires multiset(a) == multiset(b)
    ensures a == b
  {
    if a == [] || b == [] {
      EmptyByMultiset(a, b);
    } else {
      SortedHeadsEqual(a, b);
      SortedTail(a);
      SortedTail(b);
      SortedPermutationUnique(a[1..], b[1..]);
      HeadTail(a);
      HeadTail(b);
    }
  }

  /** Two non-empty ascending strings with the same letters start with the same letter and
      continue with the same letters. */
  lemma SortedHeadsEqual(a: string, b: string)
    requires a != [] && b != [] && SortedChars(a) && SortedChars(b)
    requires multiset(a) == multiset(b)
    ensures a[0] == b[0] && multiset(a[1..]) == multiset(b[1..])
  {
    assert a[0] in multiset(b) && b[0] in multiset(a);
    SortedHeadIsLeast(b, a[0]);
    SortedHeadIsLeast(a, b[0]);
    TailMultiset(a);
    TailMultiset(b);
  }

  /** The letters after the head are the letters less one copy of the head. */
  lemma TailMultiset(s: string)
    requires s != []
    ensures multiset(s[1..]) == multiset(s) - multiset{s[0]}
  {
    HeadTail(s);
  }

  /** A string with the same letters as the empty string is empty. */
  lemma EmptyByMultiset(a: string, b: string)
    requires multiset(a) == multiset(b) && (a == [] || b == [])
    ensures a == [] && b == []
  {
    assert |a| == |multiset(a)| && |b| == |multiset(b)|;
  }

  /** The head of an ascending string is at most any of its letters. */
  lemma SortedHeadIsLeast(a: string, c: char)
    requires SortedChars(a) && c in multiset(a)
    ensures a != [] && a[0] <= c
  {
    var i :| 0 <= i < |a| && a[i] == c;
  }

  /** Two words get the same signature exactly when they are made of the same letters with
      the same counts. */
  lemma SameSignatureIffSameLetters(a: string, b: string)
    ensures SortString(a) == SortString(b) <==> multiset(a) == multiset(b)
  {
    SortedSortString(a);
    SortedSortString(b);
    if multiset(a) == multiset(b) {
      SortedPermutationUnique(SortString(a), SortString(b));
    }
  }

  /** Sorting a signature again changes nothing. */
  lemma SortStringIdempotent(s: string)
    ensures SortString(SortString(s)) == SortString(s)
  {
    SortedSortString(s);
    SortedSortString(SortString(s));
    SortedPermutationUnique(SortString(SortString(s)), SortString(s));
  }

  /** Words with the same signature have the same length. */
  lemma SameSignatureSameLength(a: string, b: string)
    requires SortString(a) == SortString(b)
    ensures |a| == |b|
  {
    SortedSortString(a);
    SortedSortString(b);
    assert |a| == |multiset(a)| == |multiset(SortString(a))| == |multiset(b)| == |b|;
  }

  /** Appending two different letters to the same word gives two different signatures. */
  lemma AppendedLettersDiffer(w: string, c: char, d: char)
    requires c != d
    ensures SortString(w + [c]) != SortString(w + [d])
  {
    SameSignatureIffSameLetters(w + [c], w + [d]);
    assert multiset(w + [c]) == multiset(w) + multiset{c};
    assert multiset(w + [d]) == multiset(w) + multiset{d};
    assert multiset(w + [c])[c] != multiset(w + [d])[c];
  }

  // ---------------------------------------------------------------------------
  // Loading: the deduplicated trimmed lines

  predicate NoDuplicates(s: seq<string>) {
    forall i, j :: 0 <= i < j < |s| ==> s[i] != s[j]
  }

  /** The elements of s, each kept at its first occurrence only. */
  function Dedup(s: seq<string>): (r: seq<string>)
  {
    if s == [] then [] else
      var d := Dedup(s[..|s| - 1]);
      if s[|s| - 1] in d then d else d + [s[|s| - 1]]
  }

  /** The index of the first occurrence of x in s. */
  function FirstIndex(s: seq<string>, x: string): (i: nat)
    requires x in s
    ensures i < |s| && s[i] == x
    ensures forall j :: 0 <= j < i ==> s[j] != x
  {
    if s[0] == x then 0 else 1 + FirstIndex(s[1..], x)
  }

  lemma {:induction false} FirstIndexOfPrefix(s: seq<string>, x: string)
    requires s != [] && x in s[..|s| - 1]
    ensures FirstIndex(s, x) == FirstIndex(s[..|s| - 1], x)
  {
    if s[0] != x {
      assert s[1..][..|s[1..]| - 1] == s[..|s| - 1][1..];
      FirstIndexOfPrefix(s[1..], x);
    }
  }

  /** Dedup keeps every element exactly once, and nothing else. */
  lemma {:induction false} DedupElements(s: seq<string>)
    ensures NoDuplicates(Dedup(s))
    ensures forall x :: x in Dedup(s) <==> x in s
  {
    if s != [] {
      var p := s[..|s| - 1];
      DedupElements(p);
      assert s == p + [s[|s| - 1]];
    }
  }

  /** Dedup lists the elements in the order of their first occurrence. */
  lemma {:induction false} DedupFirstSeenOrder(s: seq<string>, a: int, b: int)
    requires 0 <= a < b < |Dedup(s)|
    ensures Dedup(s)[a] in s && Dedup(s)[b] in s
    ensures FirstIndex(s, Dedup(s)[a]) < FirstIndex(s, Dedup(s)[b])
  {
    DedupElements(s);
    var p := s[..|s| - 1];
    var d := Dedup(p);
    DedupElements(p);
    assert s == p + [s[|s| - 1]];
    if b < |d| {
      DedupFirstSeenOrder(p, a, b);
      FirstIndexOfPrefix(s, d[a]);
      FirstIndexOfPrefix(s, d[b]);
    } else {
      // Dedup(s)[b] is the last line, which did not occur before it
      assert Dedup(s) == d + [s[|s| - 1]];
      assert Dedup(s)[b] == s[|s| - 1] && s[|s| - 1] !in p;
      assert Dedup(s)[a] == d[a] && d[a] in d;
      FirstIndexOfPrefix(s, d[a]);
    }
  }

  /** One more element: Dedup keeps it when it is new and drops it otherwise. */
  lemma DedupAppend(s: seq<string>, x: string)
    ensures Dedup(s + [x]) == if x in Dedup(s) then Dedup(s) else Dedup(s) + [x]
  {
    assert (s + [x])[..|s + [x]| - 1] == s;
  }

  // ---------------------------------------------------------------------------
  // The signature index

  /** m is the signature index of the corpus ws: every corpus word sits in the family under
      its own signature, and every family holds exactly corpus words with that key. */
  ghost predicate IsSignatureIndex(m: map<string, set<string>>, ws: set<string>) {
    && (forall w :: w in ws ==> SortString(w) in m && w in m[SortString(w)])
    && (forall k :: k in m ==> m[k] != {} && forall x :: x in m[k] ==> x in ws && SortString(x) == k)
  }

  /** Adding one word to the corpus and to the family under its signature (the body of the
      constructor's loop) keeps the index exact. */
  lemma AddWordKeepsIndex(m: map<string, set<string>>, ws: set<string>, w: string)
    requires IsSignatureIndex(m, ws)
    ensures var k := SortString(w);
            IsSignatureIndex(m[k := (if k in m then m[k] else {}) + {w}], ws + {w})
  {
    var k := SortString(w);
    var m' := m[k := (if k in m then m[k] else {}) + {w}];
    AddWordCoversCorpus(m, ws, w, k, m');
    AddWordKeepsFamilies(m, ws, w, k, m');
  }

  /** After the update every corpus word, old or new, is in the family under its signature. */
  lemma AddWordCoversCorpus(m: map<string, set<string>>, ws: set<string>, w: string, k: string,
                            m': map<string, set<string>>)
    requires forall v :: v in ws ==> SortString(v) in m && v in m[SortString(v)]
    requires k == SortString(w) && m' == m[k := (if k in m then m[k] else {}) + {w}]
    ensures forall v :: v in ws + {w} ==> SortString(v) in m' && v in m'[SortString(v)]
  {
    forall v | v in ws + {w}
      ensures SortString(v) in m' && v in m'[SortString(v)]
    {
      var kv := SortString(v);
      if kv != k {
        assert v in ws && m'[kv] == m[kv];
      }
    }
  }

  /** After the update every family is non-empty and holds only corpus words with its
      signature. */
  lemma AddWordKeepsFamilies(m: map<string, set<string>>, ws: set<string>, w: string, k: string,
                             m': map<string, set<string>>)
    requires forall key :: key in m ==> m[key] != {} && forall x :: x in m[key] ==> x in ws && SortString(x) == key
    requires k == SortString(w) && m' == m[k := (if k in m then m[k] else {}) + {w}]
    ensures forall key :: key in m' ==> m'[key] != {} && forall x :: x in m'[key] ==> x in ws + {w} && SortString(x) == key
  {
    forall key | key in m'
      ensures m'[key] != {} && forall x :: x in m'[key] ==> x in ws + {w} && SortString(x) == key
    {
      if key != k {
        assert m'[key] == m[key];
      } else {
        assert w in m'[key];
      }
    }
  }

  // ---------------------------------------------------------------------------
  // What the queries return, over a corpus ws

  /** The corpus words with the same signature as t, other than t itself. */
  ghost function AnagramsOf(ws: set<string>, t: string): set<string>
  {
    set x | x in ws && SortString(x) == SortString(t) && x != t
  }

  /** The family under the signature of w, as a set of corpus words. */
  ghost function FamilyOf(ws: set<string>, w: string): set<string>
  {
    set x | x in ws && SortString(x) == SortString(w)
  }

  /** The corpus words obtainable by appending one letter a-z to w and rearranging,
      other than w plus that letter itself. */
  ghost function OneMoreLetter(ws: set<string>, w: string): set<string>
  {
    set x | x in ws && exists i :: 0 <= i < 26 && x in AnagramsOf(ws, w + [Letter(i)])
  }

  /** The 26 one-letter extensions have pairwise different signatures, so their anagram
      sets are disjoint. */
  lemma AppendedFamiliesDisjoint(ws: set<string>, w: string, i: int, j: int, x: string)
    requires 0 <= i < 26 && 0 <= j < 26 && i != j
    ensures !(x in AnagramsOf(ws, w + [Letter(i)]) && x in AnagramsOf(ws, w + [Letter(j)]))
  {
    AppendedLettersDiffer(w, Letter(i), Letter(j));
  }

  /** Each one-letter result is a corpus word of length |word| + 1 with the letters of word
      plus one lowercase letter, and word + c itself is never returned. */
  lemma OneMoreLetterSound(ws: set<string>, word: string, x: string)
    requires x in OneMoreLetter(ws, word)
    ensures x in ws && |x| == |word| + 1
    ensures exists c :: IsLowercase(c) && SortString(x) == SortString(word + [c])
    ensures forall c :: IsLowercase(c) ==> x != word + [c]
  {
    var i :| 0 <= i < 26 && x in AnagramsOf(ws, word + [Letter(i)]);
    SameSignatureSameLength(x, word + [Letter(i)]);
    forall c | IsLowercase(c) && x == word + [c]
      ensures false
    {
      if c != Letter(i) {
        AppendedLettersDiffer(word, c, Letter(i));
      }
    }
  }

  /** The k-letter search as a multiset: for each letter c whose extension word + c has
      anagrams, the results for (word + c, k - 1) and the anagrams of word + c. */
  ghost function KMore(ws: set<string>, word: string, k: nat): multiset<string>
    decreases k, 27
  {
    KMoreFrom(ws, word, k, 0)
  }

  /** The part of KMore(ws, word, k) contributed by the letters i..z. */
  ghost function KMoreFrom(ws: set<string>, word: string, k: nat, i: nat): multiset<string>
    requires i <= 26
    decreases k, 26 - i
  {
    if k == 0 || i == 26 then multiset{}
    else
      var newWord := word + [Letter(i)];
      var here := if AnagramsOf(ws, newWord) != {}
                  then KMore(ws, newWord, k - 1) + multiset(AnagramsOf(ws, newWord))
                  else multiset{};
      here + KMoreFrom(ws, word, k, i + 1)
  }

  /** One letter of the search unfolded. */
  lemma KMoreFromStep(ws: set<string>, word: string, k: nat, i: nat)
    requires k > 0 && i < 26
    ensures var newWord := word + [Letter(i)];
            KMoreFrom(ws, word, k, i)
            == (if AnagramsOf(ws, newWord) != {}
                then KMore(ws, newWord, k - 1) + multiset(AnagramsOf(ws, newWord))
                else multiset{}) + KMoreFrom(ws, word, k, i + 1)
  {
  }

  /** What the letters before i contribute to KMore(ws, word, k): the search's account after
      i iterations of its loop. */
  ghost function KMoreUpTo(ws: set<string>, word: string, k: nat, i: nat): multiset<string>
    requires k > 0 && i <= 26
  {
    if i == 0 then multiset{}
    else
      var newWord := word + [Letter(i - 1)];
      KMoreUpTo(ws, word, k, i - 1)
      + (if AnagramsOf(ws, newWord) != {}
         then KMore(ws, newWord, k - 1) + multiset(AnagramsOf(ws, newWord))
         else multiset{})
  }

  /** The letters before i and the letters from i on make up the whole search. */
  lemma {:induction false} KMoreSplit(ws: set<string>, word: string, k: nat, i: nat)
    requires k > 0 && i <= 26
    ensures KMoreUpTo(ws, word, k, i) + KMoreFrom(ws, word, k, i) == KMore(ws, word, k)
    decreases i
  {
    if i > 0 {
      KMoreSplit(ws, word, k, i - 1);
      KMoreFromStep(ws, word, k, i - 1);
    }
  }

  /** One iteration of the loop of getAnagramsWithAtLeastKMoreLetters: with the anagrams of
      word + c in hand, and the recursive results when there are any, the account grows by
      letter c's part. */
  lemma KMoreLetterPart(ws: set<string>, word: string, k: nat, i: nat, newWord: string,
                        next: seq<string>, anagrams: seq<string>)
    requires k > 0 && i < 26 && newWord == word + [Letter(i)]
    requires multiset(anagrams) == multiset(AnagramsOf(ws, newWord))
    requires |anagrams| > 0 ==> multiset(next) == KMore(ws, newWord, k - 1)
    ensures |anagrams| > 0 ==>
              KMoreUpTo(ws, word, k, i + 1) == KMoreUpTo(ws, word, k, i) + multiset(next + anagrams)
    ensures |anagrams| == 0 ==> KMoreUpTo(ws, word, k, i + 1) == KMoreUpTo(ws, word, k, i) + multiset([])
  {
    var family := AnagramsOf(ws, newWord);
    if |anagrams| > 0 {
      assert anagrams[0] in multiset(family);
    } else {
      assert multiset(family) == multiset{};
      assert forall x :: x in family ==> x in multiset(family);
      assert family == {};
    }
  }

  /** x is a corpus word that has the letters of word plus between 1 and k appended
      lowercase letters, rearranged. */
  ghost predicate ReachableByAppends(ws: set<string>, word: string, x: string, k: nat) {
    x in ws &&
    exists s :: 1 <= |s| <= k && (forall j :: 0 <= j < |s| ==> IsLowercase(s[j]))
                && SortString(x) == SortString(word + s)
  }

  /** Every result of the k-letter search is a corpus word reached from word by appending
      between 1 and k letters, so its length lies in [|word| + 1, |word| + k]. */
  lemma {:induction false} KMoreSound(ws: set<string>, word: string, k: nat, x: string)
    requires x in KMore(ws, word, k)
    ensures ReachableByAppends(ws, word, x, k)
    ensures |word| + 1 <= |x| <= |word| + k
    decreases k, 27
  {
    KMoreFromSound(ws, word, k, 0, x);
  }

  lemma {:induction false} KMoreFromSound(ws: set<string>, word: string, k: nat, i: nat, x: string)
    requires i <= 26 && x in KMoreFrom(ws, word, k, i)
    ensures ReachableByAppends(ws, word, x, k)
    ensures |word| + 1 <= |x| <= |word| + k
    decreases k, 26 - i
  {
    var newWord := word + [Letter(i)];
    KMoreFromStep(ws, word, k, i);
    if AnagramsOf(ws, newWord) != {} && x in KMore(ws, newWord, k - 1) {
      KMoreSound(ws, newWord, k - 1, x);
      ReachableThroughLetter(ws, word, i, x, k);
    } else if AnagramsOf(ws, newWord) != {} && x in AnagramsOf(ws, newWord) {
      ReachableByOneLetter(ws, word, i, x, k);
    } else {
      KMoreFromSound(ws, word, k, i + 1, x);
    }
  }

  /** A word reached from word + c with at most k - 1 more letters is reached from word
      with at most k. */
  lemma ReachableThroughLetter(ws: set<string>, word: string, i: nat, x: string, k: nat)
    requires i < 26 && k >= 1
    requires ReachableByAppends(ws, word + [Letter(i)], x, k - 1)
    requires |word + [Letter(i)]| + 1 <= |x| <= |word + [Letter(i)]| + (k - 1)
    ensures ReachableByAppends(ws, word, x, k)
    ensures |word| + 1 <= |x| <= |word| + k
  {
    var newWord := word + [Letter(i)];
    var s :| 1 <= |s| <= k - 1 && (forall j :: 0 <= j < |s| ==> IsLowercase(s[j]))
             && SortString(x) == SortString(newWord + s);
    var s' := [Letter(i)] + s;
    assert newWord + s == word + s';
    assert forall j :: 0 <= j < |s'| ==> IsLowercase(s'[j]);
    assert SortString(x) == SortString(word + s');
  }

  /** An anagram of word + c is reached from word with one letter. */
  lemma ReachableByOneLetter(ws: set<string>, word: string, i: nat, x: string, k: nat)
    requires i < 26 && k >= 1
    requires x in AnagramsOf(ws, word + [Letter(i)])
    ensures ReachableByAppends(ws, word, x, k)
    ensures |word| + 1 <= |x| <= |word| + k
  {
    var s := [Letter(i)];
    assert forall j :: 0 <= j < |s| ==> IsLowercase(s[j]);
    assert SortString(x) == SortString(word + s);
    SameSignatureSameLength(x, word + s);
  }

  /** With k >= 1 the search returns every one-letter result; with k == 1 it returns
      exactly those. */
  lemma KMoreCoversOneMoreLetter(ws: set<string>, word: string, k: nat, x: string)
    requires k >= 1
    ensures x in OneMoreLetter(ws, word) ==> x in KMore(ws, word, k)
    ensures k == 1 ==> (x in KMore(ws, word, k) <==> x in OneMoreLetter(ws, word))
  {
    KMoreFromOneLetter(ws, word, k, 0, x);
  }

  lemma {:induction false} KMoreFromOneLetter(ws: set<string>, word: string, k: nat, i: nat, x: string)
    requires k >= 1 && i <= 26
    ensures (exists j :: i <= j < 26 && x in AnagramsOf(ws, word + [Letter(j)])) ==> x in KMoreFrom(ws, word, k, i)
    ensures k == 1 ==> (x in KMoreFrom(ws, word, k, i) <==>
                        exists j :: i <= j < 26 && x in AnagramsOf(ws, word + [Letter(j)]))
    decreases 26 - i
  {
    if i < 26 {
      KMoreFromOneLetter(ws, word, k, i + 1, x);
      KMoreFromStep(ws, word, k, i);
      var newWord := word + [Letter(i)];
      if k == 1 {
        assert KMore(ws, newWord, 0) == multiset{};
      }
    }
  }

  /** A good starter is a word whose family has more than MIN_NUM_ANAGRAMS words. */
  ghost predicate IsGoodStarter(ws: set<string>, w: string) {
    |FamilyOf(ws, w)| > MIN_NUM_ANAGRAMS
  }

  /** The word the circular scan from `start` visits at its j-th step. */
  ghost function Circular(s: seq<string>, start: int, j: int): string
    requires |s| > 0 && start + j >= 0
  {
    s[(start + j) % |s|]
  }

  /** Step j of the scan from `start` is the first to reach a good starter. */
  ghost predicate FirstGoodStarterAt(ws: set<string>, s: seq<string>, start: nat, j: nat)
    requires |s| > 0
  {
    && IsGoodStarter(ws, Circular(s, start, j))
    && forall j' :: 0 <= j' < j ==> !IsGoodStarter(ws, Circular(s, start, j'))
  }

  class AnagramDictionary {
    var wordList: seq<string>
    var wordSet: set<string>
    var lettersToWords: map<string, set<string>>

    ghost predicate Valid()
      reads this
    {
      && NoDuplicates(wordList)
      && (forall w :: w in wordSet <==> w in wordList)
      && IsSignatureIndex(lettersToWords, wordSet)
    }

    /** The constructor: reads the lines in order, trims each, skips one already seen, and
        adds a new one to wordList, wordSet and the family under its signature. */
    constructor (lines: seq<string>)
      ensures Valid()
      ensures wordList == Dedup(Trimmed(lines))
    {
      var list: seq<string> := [];
      var words: set<string> := {};
      var index: map<string, set<string>> := map[];
      var n := 0;
      while n < |lines|
        invariant 0 <= n <= |lines|
        invariant list == Dedup(Trimmed(lines[..n]))
        invariant forall w :: w in words <==> w in list
        invariant IsSignatureIndex(index, words)
      {
        TrimmedAppend(lines, n);
        DedupElements(Trimmed(lines[..n]));
        DedupAppend(Trimmed(lines[..n]), Trim(lines[n]));
        var word := Trim(lines[n]);
        if word !in words {
          var sortedWord := SortString(word);
          var sortedSet := if sortedWord in index then index[sortedWord] else {};
          sortedSet := sortedSet + {word};
          AddWordKeepsIndex(index, words, word);
          index := index[sortedWord := sortedSet];
          words := words + {word};
          list := list + [word];
        }
        n := n + 1;
      }
      assert lines[..n] == lines;
      DedupElements(Trimmed(lines));
      wordList, wordSet, lettersToWords := list, words, index;
    }

    /** isGoodWord: a corpus word that does not contain the base word anywhere. */
    predicate IsGoodWord(word: string, base: string)
      reads this
    {
      word in wordSet && !Contains(word, base)
    }

    /** The family of the signature of w, looked up by the index. */
    lemma IndexFamily(w: string)
      requires Valid()
      ensures SortString(w) in lettersToWords ==> lettersToWords[SortString(w)] == FamilyOf(wordSet, w)
      ensures SortString(w) !in lettersToWords ==> FamilyOf(wordSet, w) == {}
      ensures w in wordSet ==> SortString(w) in lettersToWords
    {
    }

    /** getAnagrams: the family of t's signature (or nothing when there is none), without t,
        in the iteration order of the family's hash set. */
    method GetAnagrams(targetWord: string) returns (res: seq<string>)
      requires Valid()
      ensures NoDuplicates(res)
      ensures multiset(res) == multiset(AnagramsOf(wordSet, targetWord))
    {
      var sortedTarget := SortString(targetWord);
      var anagramSet := if sortedTarget in lettersToWords then lettersToWords[sortedTarget] else {};
      IndexFamily(targetWord);
      res := [];
      var rest := anagramSet;
      while rest != {}
        invariant rest <= anagramSet
        invariant NoDuplicates(res)
        invariant forall x :: x in res <==> x in anagramSet - rest && x != targetWord
        decreases |rest|
      {
        var word :| word in rest;
        if word != targetWord {
          assert word !in res;
          NoDuplicatesConcat(res, [word]);
          res := res + [word];
        }
        rest := rest - {word};
      }
      NoDuplicatesMultiset(res, AnagramsOf(wordSet, targetWord));
    }

    /** getAnagramsWithOneMoreLetter: the concatenation of getAnagrams(word + c) for c = a..z. */
    method GetAnagramsWithOneMoreLetter(word: string) returns (result: seq<string>)
      requires Valid()
      ensures NoDuplicates(result)
      ensures multiset(result) == multiset(OneMoreLetter(wordSet, word))
    {
      result := [];
      var i := 0;
      while i < 26
        invariant 0 <= i <= 26
        invariant NoDuplicates(result)
        invariant forall x :: x in result <==>
                    x in wordSet && exists j :: 0 <= j < i && x in AnagramsOf(wordSet, word + [Letter(j)])
      {
        var ch := Letter(i);
        var anagrams := GetAnagrams(word + [ch]);
        MultisetMembers(anagrams, AnagramsOf(wordSet, word + [ch]));
        forall x | x in result && x in anagrams
          ensures false
        {
          var j :| 0 <= j < i && x in AnagramsOf(wordSet, word + [Letter(j)]);
          AppendedFamiliesDisjoint(wordSet, word, i, j, x);
        }
        NoDuplicatesConcat(result, anagrams);
        result := result + anagrams;
        i := i + 1;
      }
      NoDuplicatesMultiset(result, OneMoreLetter(wordSet, word));
    }

    /** getAnagramsWithAtLeastKMoreLetters: the recursive search, pruned at every letter whose
        one-letter extension has no anagrams. Results are not deduplicated, so the result is
        specified as a multiset. */
    method GetAnagramsWithAtLeastKMoreLetters(word: string, k: nat) returns (result: seq<string>)
      requires Valid()
      ensures multiset(result) == KMore(wordSet, word, k)
      decreases k, 1
    {
      result := [];
      if k == 0 {
        return;
      }
      ghost var ws := wordSet;
      var i := 0;
      while i < 26
        invariant 0 <= i <= 26
        invariant multiset(result) == KMoreUpTo(ws, word, k, i)
      {
        var part := SearchThroughLetter(word, k, i);
        result := result + part;
        i := i + 1;
      }
      KMoreSplit(ws, word, k, 26);
    }

    /** The body of the letter loop of getAnagramsWithAtLeastKMoreLetters for the i-th
        letter c: the results for word + c and then the anagrams of word + c, or nothing when
        word + c has no anagrams. */
    method SearchThroughLetter(word: string, k: nat, i: nat) returns (part: seq<string>)
      requires Valid() && k > 0 && i < 26
      ensures KMoreUpTo(wordSet, word, k, i + 1) == KMoreUpTo(wordSet, word, k, i) + multiset(part)
      decreases k, 0
    {
      var ch := Letter(i);
      var newWord := word + [ch];
      var anagrams := GetAnagrams(newWord);
      if |anagrams| > 0 {
        var nextAnagrams := GetAnagramsWithAtLeastKMoreLetters(newWord, k - 1);
        KMoreLetterPart(wordSet, word, k, i, newWord, nextAnagrams, anagrams);
        part := nextAnagrams + anagrams;
      } else {
        KMoreLetterPart(wordSet, word, k, i, newWord, [], anagrams);
        part := [];
      }
    }

    /** pickGoodStarterWord with the random start index as a parameter: scans the word list
        circularly from `start` and returns the first word that is a good starter. An empty
        list makes Random.nextInt(0) throw; a full pass without a good starter throws. */
    method PickGoodStarterWord(start: nat) returns (res: Result<string, StarterError>)
      requires Valid()
      requires |wordList| > 0 ==> start < |wordList|
      ensures res == Failure(EmptyWordList) <==> |wordList| == 0
      ensures res == Failure(NoGoodStarter) <==>
                |wordList| > 0 && forall w :: w in wordList ==> !IsGoodStarter(wordSet, w)
      ensures res.Success? ==>
                exists j :: 0 <= j < |wordList| && FirstGoodStarterAt(wordSet, wordList, start, j)
                  && res.value == Circular(wordList, start, j)
    {
      var size := |wordList|;
      if size == 0 {
        return Failure(EmptyWordList);
      }
      var i := start;
      while i < start + size
        invariant start <= i <= start + size
        invariant forall j :: 0 <= j < i - start ==> !IsGoodStarter(wordSet, Circular(wordList, start, j))
      {
        var word := wordList[i % size];
        var sorted := SortString(word);
        IndexFamily(word);
        assert word == Circular(wordList, start, i - start);
        if |lettersToWords[sorted]| > MIN_NUM_ANAGRAMS {
          assert FirstGoodStarterAt(wordSet, wordList, start, i - start);
          return Success(word);
        }
        i := i + 1;
      }
      forall w | w in wordList
        ensures !IsGoodStarter(wordSet, w)
      {
        var idx :| 0 <= idx < size && wordList[idx] == w;
        var j := CircularOffset(start, idx, size);
        assert Circular(wordList, start, j) == w;
      }
      return Failure(NoGoodStarter);
    }

    /** isGoodWord rules out every word that has the base word inside it, such as the base
        word with letters added in front or behind. */
    lemma GoodWordExcludesBase(front: string, base: string, back: string)
      ensures !IsGoodWord(front + base + back, base)
      ensures !IsGoodWord(base, base)
    {
      assert OccursAt(front + base + back, base, |front|) by {
        assert (front + base + back)[|front|..|front| + |base|] == base;
      }
      assert OccursAt(base, base, 0) by {
        assert base[0..|base|] == base;
      }
    }

    /** A base word longer than the candidate cannot occur in it, so the check reduces to
        corpus membership. */
    lemma GoodWordShortCandidate(word: string, base: string)
      requires |base| > |word|
      ensures IsGoodWord(word, base) <==> word in wordSet
    {
    }
  }

  datatype StarterError = EmptyWordList | NoGoodStarter

  /** The offset j in [0, size) at which the circular scan from `start` reaches `idx`. */
  lemma CircularOffset(start: nat, idx: nat, size: nat) returns (j: nat)
    requires start < size && idx < size
    ensures j < size && (start + j) % size == idx
  {
    if idx >= start {
      j := idx - start;
      ModInRange(idx, size);
    } else {
      j := idx + size - start;
      ModInRange(idx + size, size);
    }
  }

  /** Concatenating two duplicate-free sequences with no common element gives a
      duplicate-free sequence. */
  lemma NoDuplicatesConcat(a: seq<string>, b: seq<string>)
    requires NoDuplicates(a) && NoDuplicates(b)
    requires forall x :: x in a ==> x !in b
    ensures NoDuplicates(a + b)
  {
    forall i, j | 0 <= i < j < |a + b|
      ensures (a + b)[i] != (a + b)[j]
    {
      if i < |a| && j >= |a| {
        assert (a + b)[i] in a && (a + b)[j] in b;
      }
    }
  }

  /** A sequence with the multiset of a set holds exactly that set's elements. */
  lemma MultisetMembers(s: seq<string>, elems: set<string>)
    requires multiset(s) == multiset(elems)
    ensures forall x :: x in s <==> x in elems
  {
    forall x
      ensures x in s <==> x in elems
    {
      assert x in s <==> x in multiset(s);
    }
  }

  /** A duplicate-free sequence listing exactly the elements of a set has that set's
      multiset (each element once). */
  lemma {:induction false} NoDuplicatesMultiset(s: seq<string>, elems: set<string>)
    requires NoDuplicates(s)
    requires forall x :: x in s <==> x in elems
    ensures multiset(s) == multiset(elems)
  {
    if s == [] {
      assert elems == {};
    } else {
      var last := s[|s| - 1];
      var p := s[..|s| - 1];
      assert s == p + [last];
      assert last !in p;
      NoDuplicatesMultiset(p, elems - {last});
      assert elems == (elems - {last}) + {last};
    }
  }
}
