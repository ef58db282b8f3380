/** Word Stack: two five-letter words are drawn from the dictionary, their letters are
    interleaved at random, and the interleaving is pushed onto a stack of tiles, to be
    taken off again one tile at a time. Random draws and coin flips are inputs. */
module WordStack {
  import opened JavaLang

  const WORD_LENGTH := 5

  // ---------------------------------------------------------------------------
  // Loading the dictionary

  /** The words of length WORD_LENGTH, in their order. */
  function OfWordLength(ws: seq<string>): seq<string>
    decreases |ws|
  {
    if ws == [] then []
    else OfWordLength(ws[..|ws| - 1]) + (if |ws[|ws| - 1]| == WORD_LENGTH then [ws[|ws| - 1]] else [])
  }

  /** Splitting off the last element of a concatenation. */
  lemma InitOfConcat<T>(xs: seq<T>, ys: seq<T>)
    requires ys != []
    ensures (xs + ys)[..|xs + ys| - 1] == xs + ys[..|ys| - 1]
    ensures (xs + ys)[|xs + ys| - 1] == ys[|ys| - 1]
  {
  }

  /** Keeping words commutes with concatenation, so the kept words keep the order of the
      lines they come from. */
  lemma {:induction false} OfWordLengthAppend(xs: seq<string>, ys: seq<string>)
    ensures OfWordLength(xs + ys) == OfWordLength(xs) + OfWordLength(ys)
    decreases |ys|
  {
    if ys == [] {
      assert xs + ys == xs;
    } else {
      InitOfConcat(xs, ys);
      OfWordLengthAppend(xs, ys[..|ys| - 1]);
    }
  }

  /** Exactly the words of length WORD_LENGTH are kept: every kept word has that length, and
      every word with it is kept. */
  lemma {:induction false} OfWordLengthExactly(ws: seq<string>)
    ensures forall w :: w in OfWordLength(ws) <==> w in ws && |w| == WORD_LENGTH
    decreases |ws|
  {
    if ws != [] {
      var init := ws[..|ws| - 1];
      OfWordLengthExactly(init);
      assert ws == init + [ws[|ws| - 1]];
    }
  }

  /** One more line read: its trimmed form is kept exactly when it has WORD_LENGTH letters. */
  lemma KeepOneMore(lines: seq<string>, i: nat)
    requires i < |lines|
    ensures |Trim(lines[i])| == WORD_LENGTH ==>
              OfWordLength(Trimmed(lines[..i + 1])) == OfWordLength(Trimmed(lines[..i])) + [Trim(lines[i])]
    ensures |Trim(lines[i])| != WORD_LENGTH ==>
              OfWordLength(Trimmed(lines[..i + 1])) == OfWordLength(Trimmed(lines[..i]))
  {
    var word := Trim(lines[i]);
    TrimmedAppend(lines, i);
    OfWordLengthAppend(Trimmed(lines[..i]), [word]);
    assert [word][..0] == [];
    if |word| != WORD_LENGTH {
      assert OfWordLength(Trimmed(lines[..i])) + [] == OfWordLength(Trimmed(lines[..i]));
    }
  }

  // ---------------------------------------------------------------------------
  // Interleaving two words

  /** The coin flips of random.nextInt(2). */
  predicate AreFlips(flips: seq<int>) {
    forall i :: 0 <= i < |flips| ==> 0 <= flips[i] < 2
  }

  /** The flips the interleaving loop can draw at most: it stops once either word is used up
      to WORD_LENGTH, so after at most 2 * WORD_LENGTH - 1 rounds. */
  const MAX_FLIPS := 2 * WORD_LENGTH - 1

  /** What the interleaving loop still appends from the pointers on, the next flip first. */
  function ShuffleFrom(a: string, b: string, flips: seq<int>, pa: nat, pb: nat): string
    requires |a| >= WORD_LENGTH && |b| >= WORD_LENGTH && pa <= WORD_LENGTH && pb <= WORD_LENGTH
    requires pa < WORD_LENGTH && pb < WORD_LENGTH ==> pa + pb + |flips| >= MAX_FLIPS
    decreases 2 * WORD_LENGTH - pa - pb
  {
    if pa < WORD_LENGTH && pb < WORD_LENGTH then
      if flips[0] == 0 then [a[pa]] + ShuffleFrom(a, b, flips[1..], pa + 1, pb)
      else [b[pb]] + ShuffleFrom(a, b, flips[1..], pa, pb + 1)
    else a[pa..] + b[pb..]
  }

  /** The word shuffleCombinedWord builds from the given flips. */
  function Shuffle(a: string, b: string, flips: seq<int>): string
    requires |a| >= WORD_LENGTH && |b| >= WORD_LENGTH && |flips| >= MAX_FLIPS
  {
    ShuffleFrom(a, b, flips, 0, 0)
  }

  /** The pointers at the end of the loop. */
  function PointersFrom(flips: seq<int>, pa: nat, pb: nat): (nat, nat)
    requires pa <= WORD_LENGTH && pb <= WORD_LENGTH
    requires pa < WORD_LENGTH && pb < WORD_LENGTH ==> pa + pb + |flips| >= MAX_FLIPS
    decreases 2 * WORD_LENGTH - pa - pb
  {
    if pa < WORD_LENGTH && pb < WORD_LENGTH then
      if flips[0] == 0 then PointersFrom(flips[1..], pa + 1, pb)
      else PointersFrom(flips[1..], pa, pb + 1)
    else (pa, pb)
  }

  /** s is an interleaving of a and b: both appear in s in order, and nothing else does. */
  predicate IsInterleaving(s: string, a: string, b: string)
    decreases |s|
  {
    if a == [] then s == b
    else if b == [] then s == a
    else s != [] && ((s[0] == a[0] && IsInterleaving(s[1..], a[1..], b))
                     || (s[0] == b[0] && IsInterleaving(s[1..], a, b[1..])))
  }

  lemma {:induction false} ConcatInterleaves(a: string, b: string)
    ensures IsInterleaving(a + b, a, b)
    decreases |a|
  {
    if a != [] && b != [] {
      assert (a + b)[1..] == a[1..] + b;
      ConcatInterleaves(a[1..], b);
    } else if a == [] {
      assert a + b == b;
    } else {
      assert a + b == a;
    }
  }

  /** An interleaving has exactly the letters of both words. */
  lemma {:induction false} InterleavingLetters(s: string, a: string, b: string)
    requires IsInterleaving(s, a, b)
    ensures |s| == |a| + |b| && multiset(s) == multiset(a) + multiset(b)
    decreases |s|
  {
    if a != [] && b != [] {
      assert s == [s[0]] + s[1..];
      if s[0] == a[0] && IsInterleaving(s[1..], a[1..], b) {
        InterleavingLetters(s[1..], a[1..], b);
        assert a == [a[0]] + a[1..];
      } else {
        InterleavingLetters(s[1..], a, b[1..]);
        assert b == [b[0]] + b[1..];
      }
    }
  }

  lemma {:induction false} ShuffleFromInterleaves(a: string, b: string, flips: seq<int>, pa: nat, pb: nat)
    requires |a| >= WORD_LENGTH && |b| >= WORD_LENGTH && pa <= WORD_LENGTH && pb <= WORD_LENGTH
    requires pa < WORD_LENGTH && pb < WORD_LENGTH ==> pa + pb + |flips| >= MAX_FLIPS
    ensures IsInterleaving(ShuffleFrom(a, b, flips, pa, pb), a[pa..], b[pb..])
    decreases 2 * WORD_LENGTH - pa - pb
  {
    var s := ShuffleFrom(a, b, flips, pa, pb);
    if pa < WORD_LENGTH && pb < WORD_LENGTH {
      assert a[pa..][0] == a[pa] && a[pa..][1..] == a[pa + 1..];
      assert b[pb..][0] == b[pb] && b[pb..][1..] == b[pb + 1..];
      if flips[0] == 0 {
        ShuffleFromInterleaves(a, b, flips[1..], pa + 1, pb);
        assert s[1..] == ShuffleFrom(a, b, flips[1..], pa + 1, pb);
      } else {
        ShuffleFromInterleaves(a, b, flips[1..], pa, pb + 1);
        assert s[1..] == ShuffleFrom(a, b, flips[1..], pa, pb + 1);
      }
    } else {
      ConcatInterleaves(a[pa..], b[pb..]);
    }
  }

  /** The shuffled word interleaves the two words, each in its own order, and has all the
      letters of both. */
  lemma ShuffleIsInterleaving(a: string, b: string, flips: seq<int>)
    requires |a| >= WORD_LENGTH && |b| >= WORD_LENGTH && |flips| >= MAX_FLIPS
    ensures IsInterleaving(Shuffle(a, b, flips), a, b)
    ensures |Shuffle(a, b, flips)| == |a| + |b|
    ensures multiset(Shuffle(a, b, flips)) == multiset(a) + multiset(b)
  {
    ShuffleFromInterleaves(a, b, flips, 0, 0);
    assert a[0..] == a && b[0..] == b;
    InterleavingLetters(Shuffle(a, b, flips), a, b);
  }

  /** The loop ends with one pointer at WORD_LENGTH, neither pointer having moved back. */
  lemma {:induction false} PointersFromBounds(flips: seq<int>, pa: nat, pb: nat)
    requires pa <= WORD_LENGTH && pb <= WORD_LENGTH
    requires pa < WORD_LENGTH && pb < WORD_LENGTH ==> pa + pb + |flips| >= MAX_FLIPS
    ensures var (qa, qb) := PointersFrom(flips, pa, pb);
            && pa <= qa <= WORD_LENGTH && pb <= qb <= WORD_LENGTH
            && (qa == WORD_LENGTH || qb == WORD_LENGTH)
    decreases 2 * WORD_LENGTH - pa - pb
  {
    if pa < WORD_LENGTH && pb < WORD_LENGTH {
      if flips[0] == 0 {
        PointersFromBounds(flips[1..], pa + 1, pb);
      } else {
        PointersFromBounds(flips[1..], pa, pb + 1);
      }
    }
  }

  /** The loop ends with one pointer at WORD_LENGTH, and the rest of both words appended in
      order. */
  lemma {:induction false} ShuffleFromEnds(a: string, b: string, flips: seq<int>, pa: nat, pb: nat)
    requires |a| >= WORD_LENGTH && |b| >= WORD_LENGTH && pa <= WORD_LENGTH && pb <= WORD_LENGTH
    requires pa < WORD_LENGTH && pb < WORD_LENGTH ==> pa + pb + |flips| >= MAX_FLIPS
    ensures var (qa, qb) := PointersFrom(flips, pa, pb);
            && pa <= qa <= WORD_LENGTH && pb <= qb <= WORD_LENGTH
            && (qa == WORD_LENGTH || qb == WORD_LENGTH)
            && EndsWith(ShuffleFrom(a, b, flips, pa, pb), a[qa..] + b[qb..])
    decreases 2 * WORD_LENGTH - pa - pb
  {
    PointersFromBounds(flips, pa, pb);
    var (qa, qb) := PointersFrom(flips, pa, pb);
    if pa < WORD_LENGTH && pb < WORD_LENGTH {
      if flips[0] == 0 {
        var tail := ShuffleFrom(a, b, flips[1..], pa + 1, pb);
        assert ShuffleFrom(a, b, flips, pa, pb) == [a[pa]] + tail;
        assert PointersFrom(flips[1..], pa + 1, pb) == (qa, qb);
        ShuffleFromEnds(a, b, flips[1..], pa + 1, pb);
        ConsEndsWith(a[pa], tail, a[qa..] + b[qb..]);
      } else {
        var tail := ShuffleFrom(a, b, flips[1..], pa, pb + 1);
        assert ShuffleFrom(a, b, flips, pa, pb) == [b[pb]] + tail;
        assert PointersFrom(flips[1..], pa, pb + 1) == (qa, qb);
        ShuffleFromEnds(a, b, flips[1..], pa, pb + 1);
        ConsEndsWith(b[pb], tail, a[qa..] + b[qb..]);
      }
    } else {
      var rest := a[pa..] + b[pb..];
      assert rest[0..] == rest;
    }
  }

  /** u is the last |u| letters of s. */
  predicate EndsWith(s: string, u: string) {
    |s| >= |u| && s[|s| - |u|..] == u
  }

  /** Putting a letter in front keeps the end. */
  lemma ConsEndsWith(x: char, s: string, u: string)
    requires EndsWith(s, u)
    ensures EndsWith([x] + s, u)
  {
    assert ([x] + s)[|[x] + s| - |u|..] == s[|s| - |u|..];
  }

  /** With all flips 0 the first word is taken whole, then the second: the result is a + b. */
  lemma {:induction false} AllZeroFlipsConcatenate(a: string, b: string, flips: seq<int>, pa: nat)
    requires |a| >= WORD_LENGTH && |b| >= WORD_LENGTH && pa <= WORD_LENGTH
    requires pa < WORD_LENGTH ==> pa + |flips| >= MAX_FLIPS
    requires forall i :: 0 <= i < |flips| ==> flips[i] == 0
    ensures ShuffleFrom(a, b, flips, pa, 0) == a[pa..] + b
    decreases WORD_LENGTH - pa
  {
    if pa < WORD_LENGTH {
      assert flips[0] == 0;
      var tail := ShuffleFrom(a, b, flips[1..], pa + 1, 0);
      assert ShuffleFrom(a, b, flips, pa, 0) == [a[pa]] + tail;
      AllZeroFlipsConcatenate(a, b, flips[1..], pa + 1);
      assert [a[pa]] + (a[pa + 1..] + b) == a[pa..] + b by {
        assert a[pa..] == [a[pa]] + a[pa + 1..];
      }
    } else {
      assert b[0..] == b;
    }
  }

  /** One round of the interleaving loop, with the flips drawn so far dropped. */
  lemma ShuffleFromStep(a: string, b: string, flips: seq<int>, drawn: nat, pa: nat, pb: nat)
    requires |a| >= WORD_LENGTH && |b| >= WORD_LENGTH && pa < WORD_LENGTH && pb < WORD_LENGTH
    requires drawn == pa + pb && |flips| >= MAX_FLIPS
    ensures ShuffleFrom(a, b, flips[drawn..], pa, pb)
            == if flips[drawn] == 0 then [a[pa]] + ShuffleFrom(a, b, flips[drawn + 1..], pa + 1, pb)
               else [b[pb]] + ShuffleFrom(a, b, flips[drawn + 1..], pa, pb + 1)
  {
    assert flips[drawn..][0] == flips[drawn] && flips[drawn..][1..] == flips[drawn + 1..];
  }

  lemma AppendMoves<T>(xs: seq<T>, x: T, ys: seq<T>)
    ensures (xs + [x]) + ys == xs + ([x] + ys)
  {
  }

  /** One round of the interleaving loop keeps "what is built plus what is still to come"
      equal to the whole shuffle. */
  lemma ShuffleLoopStep(a: string, b: string, flips: seq<int>, drawn: nat, pa: nat, pb: nat,
                        res: string, whole: string)
    requires |a| >= WORD_LENGTH && |b| >= WORD_LENGTH && pa < WORD_LENGTH && pb < WORD_LENGTH
    requires drawn == pa + pb && |flips| >= MAX_FLIPS
    requires res + ShuffleFrom(a, b, flips[drawn..], pa, pb) == whole
    ensures flips[drawn] == 0 ==>
              (res + [a[pa]]) + ShuffleFrom(a, b, flips[drawn + 1..], pa + 1, pb) == whole
    ensures flips[drawn] != 0 ==>
              (res + [b[pb]]) + ShuffleFrom(a, b, flips[drawn + 1..], pa, pb + 1) == whole
  {
    ShuffleFromStep(a, b, flips, drawn, pa, pb);
    if flips[drawn] == 0 {
      AppendMoves(res, a[pa], ShuffleFrom(a, b, flips[drawn + 1..], pa + 1, pb));
    } else {
      AppendMoves(res, b[pb], ShuffleFrom(a, b, flips[drawn + 1..], pa, pb + 1));
    }
  }

  /** Once a pointer reaches WORD_LENGTH, appending both remainders completes the shuffle. */
  lemma ShuffleLoopExit(a: string, b: string, flips: seq<int>, drawn: nat, pa: nat, pb: nat,
                        res: string, whole: string)
    requires |a| >= WORD_LENGTH && |b| >= WORD_LENGTH && pa <= WORD_LENGTH && pb <= WORD_LENGTH
    requires pa == WORD_LENGTH || pb == WORD_LENGTH
    requires drawn <= |flips| && res + ShuffleFrom(a, b, flips[drawn..], pa, pb) == whole
    ensures (res + a[pa..]) + b[pb..] == whole
  {
    assert ShuffleFrom(a, b, flips[drawn..], pa, pb) == a[pa..] + b[pb..];
  }

  /** shuffleCombinedWord with the flips as input, one drawn per round of its loop. */
  method ShuffleCombinedWord(a: string, b: string, flips: seq<int>) returns (res: string)
    requires |a| >= WORD_LENGTH && |b| >= WORD_LENGTH && |flips| >= MAX_FLIPS && AreFlips(flips)
    ensures res == Shuffle(a, b, flips)
    ensures IsInterleaving(res, a, b) && |res| == |a| + |b|
  {
    res := [];
    var pointerA, pointerB := 0, 0;
    var drawn := 0;
    ghost var whole := Shuffle(a, b, flips);
    ghost var rest := whole;
    assert flips[0..] == flips;
    while pointerA < WORD_LENGTH && pointerB < WORD_LENGTH
      invariant 0 <= pointerA <= WORD_LENGTH && 0 <= pointerB <= WORD_LENGTH
      invariant drawn == pointerA + pointerB <= |flips|
      invariant rest == ShuffleFrom(a, b, flips[drawn..], pointerA, pointerB)
      invariant res + rest == whole
      decreases 2 * WORD_LENGTH - pointerA - pointerB
    {
      var randomInt := flips[drawn];
      ShuffleLoopStep(a, b, flips, drawn, pointerA, pointerB, res, whole);
      if randomInt == 0 {
        res := res + [a[pointerA]];
        pointerA := pointerA + 1;
      } else {
        res := res + [b[pointerB]];
        pointerB := pointerB + 1;
      }
      drawn := drawn + 1;
      rest := ShuffleFrom(a, b, flips[drawn..], pointerA, pointerB);
    }
    ShuffleLoopExit(a, b, flips, drawn, pointerA, pointerB, res, whole);
    res := res + a[pointerA..];
    res := res + b[pointerB..];
    ShuffleIsInterleaving(a, b, flips);
  }

  // ---------------------------------------------------------------------------
  // Choosing the two words

  /** selectRandomInt with the draw of random.nextInt(size) as a parameter; the remainder
      is Java's, so a negative offset could give a negative index. */
  function SelectRandomInt(offset: int, size: int, draw: int): (r: int)
    requires size > 0 && 0 <= draw < size
    ensures offset >= 0 ==> 0 <= r < size
    ensures offset < 0 ==> -size < r < size
  {
    JavaRem(draw + offset, size)
  }

  /** The two indices onStartGame draws with a dictionary of n words. */
  function StartIndices(n: int, draw1: int, draw2: int): (int, int)
    requires n >= 2 && 0 <= draw1 < n && 0 <= draw2 < n - 1
  {
    var first := SelectRandomInt(0, n, draw1);
    (first, SelectRandomInt(first, n - 1, draw2))
  }

  /** Both indices are valid; the first is the draw itself, and the second never names the
      last word. */
  lemma StartIndicesValid(n: int, draw1: int, draw2: int)
    requires n >= 2 && 0 <= draw1 < n && 0 <= draw2 < n - 1
    ensures var (i, j) := StartIndices(n, draw1, draw2);
            i == draw1 && 0 <= i < n && 0 <= j < n - 1
  {
    ModInRange(draw1, n);
    ModInRange(draw1 + draw2, n - 1);
  }

  /** The two indices may coincide, so both words can be the same one. */
  lemma StartIndicesMayCoincide()
    ensures StartIndices(3, 0, 0) == (0, 0)
  {
  }

  // ---------------------------------------------------------------------------
  // The stack of tiles

  /** The elements of s, last first. */
  function Reversed<T>(s: seq<T>): seq<T> {
    seq(|s|, i requires 0 <= i < |s| => s[|s| - 1 - i])
  }

  /** Reversing twice gives the sequence back, and reversing keeps the elements. */
  lemma ReversedInvolution<T>(s: seq<T>)
    ensures Reversed(Reversed(s)) == s
    ensures multiset(Reversed(s)) == multiset(s)
  {
    var r := Reversed(s);
    assert Reversed(r) == s;
    if s != [] {
      var s0 := s[..|s| - 1];
      assert r == [s[|s| - 1]] + Reversed(s0);
      ReversedInvolution(s0);
      assert s == s0 + [s[|s| - 1]];
    }
  }

  /** The letters met by popping n tiles off a stack whose top is its last element. */
  function Popped<T>(stack: seq<T>, n: nat): seq<T>
    requires n <= |stack|
  {
    Reversed(stack[|stack| - n..])
  }

  /** After pushing a word, its first letter is on top and popping yields the word in order. */
  lemma PushedWordPopsInOrder<T>(stack: seq<T>, word: seq<T>)
    ensures |stack + Reversed(word)| == |stack| + |word|
    ensures word != [] ==> (stack + Reversed(word))[|stack| + |word| - 1] == word[0]
    ensures Popped(stack + Reversed(word), |word|) == word
  {
    var s := stack + Reversed(word);
    assert s[|s| - |word|..] == Reversed(word);
  }

  /** The activity's state used by the game logic: the dictionary, the two chosen words and
      the letters on the stacked layout, the last element on top. */
  class WordStackActivity {
    var words: seq<string>
    var word1: string
    var word2: string
    var stackedLayout: seq<char>

    /** Every dictionary word has WORD_LENGTH letters. */
    predicate Valid()
      reads this`words
    {
      forall w :: w in words ==> |w| == WORD_LENGTH
    }

    constructor ()
      ensures Valid() && words == [] && stackedLayout == [] && word1 == [] && word2 == []
    {
      words, word1, word2, stackedLayout := [], [], [], [];
    }

    /** The loading loop of onCreate over the dictionary's lines. */
    method LoadWords(lines: seq<string>)
      requires Valid()
      modifies this
      ensures Valid() && words == old(words) + OfWordLength(Trimmed(lines))
      ensures word1 == old(word1) && word2 == old(word2) && stackedLayout == old(stackedLayout)
    {
      var kept: seq<string> := [];
      var i := 0;
      while i < |lines|
        invariant 0 <= i <= |lines|
        invariant kept == OfWordLength(Trimmed(lines[..i]))
        modifies {}
      {
        var word := Trim(lines[i]);
        KeepOneMore(lines, i);
        if |word| == WORD_LENGTH {
          kept := kept + [word];
        }
        i := i + 1;
      }
      assert lines[..i] == lines;
      assert forall w :: w in kept ==> |w| == WORD_LENGTH by {
        OfWordLengthExactly(Trimmed(lines));
      }
      words := words + kept;
    }

    /** pushToStackedLayout: the letters are pushed from the last to the first. */
    method PushToStackedLayout(word: string)
      modifies this
      ensures stackedLayout == old(stackedLayout) + Reversed(word)
      ensures words == old(words) && word1 == old(word1) && word2 == old(word2)
    {
      var i := |word| - 1;
      while i > -1
        invariant -1 <= i < |word|
        invariant stackedLayout == old(stackedLayout) + Reversed(word[i + 1..])
        invariant words == old(words) && word1 == old(word1) && word2 == old(word2)
      {
        assert Reversed(word[i..]) == Reversed(word[i + 1..]) + [word[i]];
        stackedLayout := stackedLayout + [word[i]];
        i := i - 1;
      }
      assert word[0..] == word;
    }

    /** onStartGame with the two draws and the flips as inputs. With fewer than two words
        random.nextInt throws after the clean-up; the result is then false. */
    method OnStartGame(draw1: int, draw2: int, flips: seq<int>) returns (started: bool)
      requires Valid() && |flips| >= MAX_FLIPS && AreFlips(flips)
      requires |words| >= 2 ==> 0 <= draw1 < |words| && 0 <= draw2 < |words| - 1
      modifies this
      ensures Valid() && words == old(words) && (started <==> |words| >= 2)
      ensures !started ==> stackedLayout == [] && word1 == old(word1) && word2 == old(word2)
      ensures started ==>
                var (i, j) := StartIndices(|words|, draw1, draw2);
                && word1 == words[i] && word2 == words[j]
                && stackedLayout == Reversed(Shuffle(word1, word2, flips))
    {
      // cleanUpOnStartGame
      stackedLayout := [];
      if |words| < 2 {
        // with no words the first, and with one word the second, selectRandomInt calls
        // nextInt(0), which throws; the result false stands for that exception
        return false;
      }
      StartIndicesValid(|words|, draw1, draw2);
      var randInt1 := SelectRandomInt(0, |words|, draw1);
      var randInt2 := SelectRandomInt(randInt1, |words| - 1, draw2);
      assert StartIndices(|words|, draw1, draw2) == (randInt1, randInt2);
      var first, second := words[randInt1], words[randInt2];
      assert |first| == WORD_LENGTH && |second| == WORD_LENGTH by {
        assert first in words && second in words;
      }
      var shuffledCombinedWord := ShuffleCombinedWord(first, second, flips);
      word1, word2 := first, second;
      PushToStackedLayout(shuffledCombinedWord);
      assert stackedLayout == Reversed(shuffledCombinedWord) by {
        assert [] + Reversed(shuffledCombinedWord) == Reversed(shuffledCombinedWord);
      }
      started := true;
    }
  }
}
