# Google Applied CS Android exercises: a verified model of their core logic

This project models, in Dafny, the game logic of five Android exercise apps. It proves what
that logic computes and which invariants it keeps.

- **Anagrams.** `AnagramDictionary` loads a word list into a deduplicated list, a word set and
  a signature index. The signature of a word is its sorted letters; the index maps each
  signature to the family of words that have it. The dictionary then answers anagram queries:
  - the anagrams of a word;
  - the anagrams of a word plus one letter;
  - the anagrams of a word plus up to k letters, searched recursively;
  - a starter word, found by a circular scan from a random index.
- **BST guesser.** `TreeNode` is a self-balancing binary search tree node. It supports
  recursive insertion with left and right rotations, an unusual height convention (a missing
  child and a leaf both have height 0), and the integer layout of the tree on screen.
- **Touring musician.** `CircularLinkedList` is a doubly linked ring of points that starts at
  `head`. It supports:
  - insertion before a node, at the beginning, and next to the nearest point;
  - an incomplete "smallest increase" insertion;
  - the tour length;
  - reset;
  - an iterator.
- **Scarne's Dice.** The score fields of the dice game's activity and the methods that update
  them: rolling, holding, win detection at 100, reset, the hand-over to the CPU, and the CPU's
  rule of holding at 15.
- **Word stack.** It loads the five-letter words, picks two of them by random indices,
  interleaves their letters by coin flips, and pushes the result onto a stack of tiles.

Where the source changes state step by step, the model does too.
- `AnagramDictionary`, `TreeNode`, `CircularLinkedList`, the iterator and both activities are
  classes whose methods update their fields.
- Each of those methods is proved against a specification function or predicate over values:
  - the score transitions over a `Game` value;
  - `InsertTree` over a `Tree` value;
  - `InsertAt` over the sequence of nodes read from `head`;
  - `Shuffle` over the coin flips.
- Properties are proved about the specification functions as lemmas.

Randomness is passed in as parameters (the start index, dice faces, coin flips, index draws).
So is the distance function of the touring musician.

Files:
- `java_lang.dfy`: `String.trim`, `String.contains`, and Java's truncating `/` and `%`, plus
  `Option` and `Result`.
- `anagrams.dfy`, `bst_guesser.dfy`, `touring_musician.dfy`, `scarnes_dice.dfy` and
  `word_stack.dfy`: one module per source file.

## Model

| member | source | states |
|---|---|---|
| JavaLang.TrimSpec | anagrams/app/src/main/java/com/google/engedu/anagrams/AnagramDictionary.java:45 | `trim` keeps one contiguous block of the line that neither starts nor ends with a character at or below U+0020; everything it drops before and after the block is such a character |
| JavaLang.JavaDiv | bst-viewer/app/src/main/java/com/google/engedu/bstguesser/TreeNode.java:121 | Java int division: the quotient is truncated toward zero, that is, q·b is the multiple of b nearest to the dividend a on the side of zero (q·b ≤ a < q·b + b for a ≥ 0, q·b − b < a ≤ q·b for a < 0), which fixes q uniquely |
| JavaLang.JavaRem | word-stack/app/src/main/java/com/google/engedu/wordstack/MainActivity.java:161 | Java int remainder: it has the sign of the dividend, lies strictly within the divisor, and `a == (a / b) * b + a % b` |
| Anagrams.SortedSortString | anagrams/app/src/main/java/com/google/engedu/anagrams/AnagramDictionary.java:59-64 | `sortString` returns its input's letters in ascending order, and as a permutation of the input |
| Anagrams.SortedPermutationUnique | anagrams/app/src/main/java/com/google/engedu/anagrams/AnagramDictionary.java:59-64 | two sorted strings with the same letters are equal, so any sorting algorithm gives the same signature |
| Anagrams.SameSignatureIffSameLetters | anagrams/app/src/main/java/com/google/engedu/anagrams/AnagramDictionary.java:59-64 | two words have the same signature if and only if they have the same letters with the same counts |
| Anagrams.SortStringIdempotent | anagrams/app/src/main/java/com/google/engedu/anagrams/AnagramDictionary.java:59-64 | sorting a signature again changes nothing |
| Anagrams.SameSignatureSameLength | anagrams/app/src/main/java/com/google/engedu/anagrams/AnagramDictionary.java:59-64 | words under one signature have the same length |
| Anagrams.AppendedLettersDiffer | anagrams/app/src/main/java/com/google/engedu/anagrams/AnagramDictionary.java:90-93 | appending two different letters to one word gives two different signatures |
| Anagrams.DedupElements | anagrams/app/src/main/java/com/google/engedu/anagrams/AnagramDictionary.java:44-56 | the list that skips words already seen has no duplicates and holds exactly the words of the input |
| Anagrams.DedupFirstSeenOrder | anagrams/app/src/main/java/com/google/engedu/anagrams/AnagramDictionary.java:44-56 | that list keeps first-seen order: an earlier entry occurs for the first time earlier in the input |
| Anagrams.DedupAppend | anagrams/app/src/main/java/com/google/engedu/anagrams/AnagramDictionary.java:46-55 | one more line adds its word exactly when the word has not been seen |
| Anagrams.AddWordKeepsIndex | anagrams/app/src/main/java/com/google/engedu/anagrams/AnagramDictionary.java:48-54 | adding a word to the family under its signature, and to the word set, keeps the index exact: every word is in the family of its own signature, and every family is non-empty and holds only words with that signature |
| Anagrams.AnagramDictionary.constructor | anagrams/app/src/main/java/com/google/engedu/anagrams/AnagramDictionary.java:41-57 | `wordList` is the trimmed lines with repeats skipped, in first-seen order (empty lines included); `wordSet` holds exactly the words of `wordList`; `lettersToWords` is the exact signature index of `wordSet` |
| Anagrams.AnagramDictionary.IndexFamily | anagrams/app/src/main/java/com/google/engedu/anagrams/AnagramDictionary.java:73-126 | the index's entry for a signature is the family of words with that signature; a missing entry means the family is empty; a loaded word always has an entry, so the lookup at line 126 never yields null |
| Anagrams.AnagramDictionary.GoodWordExcludesBase | anagrams/app/src/main/java/com/google/engedu/anagrams/AnagramDictionary.java:66-68 | a word that contains the base word anywhere, the base word itself included, is never a good word |
| Anagrams.AnagramDictionary.GoodWordShortCandidate | anagrams/app/src/main/java/com/google/engedu/anagrams/AnagramDictionary.java:66-68 | a candidate shorter than the base word is good if and only if it is in the word set |
| Anagrams.AnagramDictionary.GetAnagrams | anagrams/app/src/main/java/com/google/engedu/anagrams/AnagramDictionary.java:71-86 | the result has no duplicates and holds exactly the words with the target's signature other than the target; it is empty when the signature has no family |
| Anagrams.AppendedFamiliesDisjoint | anagrams/app/src/main/java/com/google/engedu/anagrams/AnagramDictionary.java:90-94 | the anagram sets of word+c for two different letters c share no word |
| Anagrams.AnagramDictionary.GetAnagramsWithOneMoreLetter | anagrams/app/src/main/java/com/google/engedu/anagrams/AnagramDictionary.java:88-97 | the result has no duplicates and holds exactly the words that are anagrams of word+c for some c in a-z, other than word+c itself |
| Anagrams.OneMoreLetterSound | anagrams/app/src/main/java/com/google/engedu/anagrams/AnagramDictionary.java:88-97 | every one-letter result is in the word set, has one letter more than the word, has the word's letters plus one lowercase letter, and is never word+c itself |
| Anagrams.AnagramDictionary.GetAnagramsWithAtLeastKMoreLetters | anagrams/app/src/main/java/com/google/engedu/anagrams/AnagramDictionary.java:100-118 | the result, counted with repeats, is the recursive search: empty for k = 0; otherwise, for each letter c whose word+c has anagrams, the results for (word+c, k-1) followed by the anagrams of word+c |
| Anagrams.KMoreSound | anagrams/app/src/main/java/com/google/engedu/anagrams/AnagramDictionary.java:100-118 | every k-letter result is in the word set, has the word's letters plus 1 to k appended lowercase letters, and so has length in [\|word\|+1, \|word\|+k] |
| Anagrams.KMoreCoversOneMoreLetter | anagrams/app/src/main/java/com/google/engedu/anagrams/AnagramDictionary.java:88-118 | for k >= 1 the k-letter search finds every one-letter result; for k = 1 it finds exactly them |
| Anagrams.KMoreSplit | anagrams/app/src/main/java/com/google/engedu/anagrams/AnagramDictionary.java:104-115 | the results gathered for the letters before i, plus those for the letters from i on, make up the whole search |
| Anagrams.KMoreLetterPart | anagrams/app/src/main/java/com/google/engedu/anagrams/AnagramDictionary.java:106-114 | one pass of the letter loop appends the next letter's share of the search, and only when word+c has anagrams |
| Anagrams.AnagramDictionary.SearchThroughLetter | anagrams/app/src/main/java/com/google/engedu/anagrams/AnagramDictionary.java:106-114 | the part one letter c contributes (the results for word+c with one letter fewer to add, then the anagrams of word+c, or nothing) extends the account of the letters before c to include c |
| Anagrams.AnagramDictionary.PickGoodStarterWord | anagrams/app/src/main/java/com/google/engedu/anagrams/AnagramDictionary.java:120-134 | an empty list fails exactly when there are no words (where `nextInt` throws); "no good starter" fails exactly when no word's family has more than 5 words; otherwise the result is the first word, in the circular order from the start index, whose family has more than 5 words |
| Anagrams.CircularOffset | anagrams/app/src/main/java/com/google/engedu/anagrams/AnagramDictionary.java:123-124 | the circular scan `i % size` from any start reaches every index within `size` steps |
| BstGuesser.HeightIsDepth | bst-viewer/app/src/main/java/com/google/engedu/bstguesser/TreeNode.java:40-51 | under the stored-height convention the height is the number of edges on the longest downward path; it is 0 exactly for a missing node or a leaf |
| BstGuesser.RotateRightSpec | bst-viewer/app/src/main/java/com/google/engedu/bstguesser/TreeNode.java:57-68 | the rotation applies exactly when the left child exists; it keeps the in-order sequence, makes the former left child the root, and leaves every stored height right |
| BstGuesser.RotateLeftSpec | bst-viewer/app/src/main/java/com/google/engedu/bstguesser/TreeNode.java:69-80 | the same for the left rotation and the right child |
| BstGuesser.TreeNode.constructor | bst-viewer/app/src/main/java/com/google/engedu/bstguesser/TreeNode.java:32-38 | a new node is a leaf holding the value, with height 0 |
| BstGuesser.TreeNode.RotateRight | bst-viewer/app/src/main/java/com/google/engedu/bstguesser/TreeNode.java:57-68 | relinking the nodes in place yields the tree the right rotation specifies, rooted at the former left child, over the same nodes |
| BstGuesser.TreeNode.RotateLeft | bst-viewer/app/src/main/java/com/google/engedu/bstguesser/TreeNode.java:69-80 | the same for the left rotation |
| BstGuesser.RebalanceSpec | bst-viewer/app/src/main/java/com/google/engedu/bstguesser/TreeNode.java:98-112 | the rotations at the end of insert keep the in-order sequence and correct stored heights; with a balance factor in [-1, 1] the node itself is returned unchanged |
| BstGuesser.InsertInOrder | bst-viewer/app/src/main/java/com/google/engedu/bstguesser/TreeNode.java:81-113 | insertion puts the value into the in-order sequence at one position, after every value at or below it (equal values go right) and before every larger one |
| BstGuesser.InsertKeepsOrder | bst-viewer/app/src/main/java/com/google/engedu/bstguesser/TreeNode.java:81-113 | insertion adds exactly one occurrence of the value, and a sorted in-order sequence stays sorted |
| BstGuesser.InsertKeepsHeights | bst-viewer/app/src/main/java/com/google/engedu/bstguesser/TreeNode.java:64-96 | every stored height in the tree that insert returns follows the height convention |
| BstGuesser.TreeNode.Insert | bst-viewer/app/src/main/java/com/google/engedu/bstguesser/TreeNode.java:81-113 | the in-place insertion returns the root of exactly the tree that insert specifies on the old tree, or fails where the source dereferences null; it adds only new nodes; when no rotation is due it returns this node; with the corrected double-rotation test it never fails on a tree with correct heights |
| BstGuesser.TreeNode.Grow | bst-viewer/app/src/main/java/com/google/engedu/bstguesser/TreeNode.java:82-96 | the recursive descent and the height update build the grown tree in place |
| BstGuesser.TreeNode.UpdateHeight | bst-viewer/app/src/main/java/com/google/engedu/bstguesser/TreeNode.java:96 | the node's height becomes calcNewHeight and nothing else changes |
| BstGuesser.TreeNode.Rebalance | bst-viewer/app/src/main/java/com/google/engedu/bstguesser/TreeNode.java:98-112 | the rotations in place give the rebalanced tree, over the same nodes; with a balance factor in [-1, 1] they return the node itself |
| BstGuesser.TreeNode.CaseOfAgrees | bst-viewer/app/src/main/java/com/google/engedu/bstguesser/TreeNode.java:100-106 | the left-right and right-left tests, read off the nodes, agree with the tests on the tree the nodes hold |
| BstGuesser.AsWrittenInsertCrashes | bst-viewer/app/src/main/java/com/google/engedu/bstguesser/TreeNode.java:98-110 | inserting 2, 6, 7, 9, 15, 12, 12, 12, 2, 9, 9, 7 into an empty tree reaches a null dereference at the twelfth value |
| BstGuesser.InsertByChildBalanceTotal | bst-viewer/app/src/main/java/com/google/engedu/bstguesser/TreeNode.java:98-110 | with the double-rotation case chosen by the child's balance factor, insertion into a tree with correct heights never dereferences null |
| BstGuesser.InsertAllByChildBalance | bst-viewer/app/src/main/java/com/google/engedu/bstguesser/TreeNode.java:81-113 | with that test, every sequence of insertions succeeds and keeps the heights correct and the in-order sequence sorted; the values are the old ones plus the inserted ones |
| BstGuesser.PlaceTreeSpec | bst-viewer/app/src/main/java/com/google/engedu/bstguesser/TreeNode.java:119-129 | the layout has the tree's shape; each node's x is (x0+x1)/2, truncated as in Java; depth d lies on row y0 + 80·d (SIZE + MARGIN, lines 24-25) |
| BstGuesser.TreeNode.PositionSelf | bst-viewer/app/src/main/java/com/google/engedu/bstguesser/TreeNode.java:119-129 | writing x and y through the tree gives the coordinates the layout specifies, and leaves the tree unchanged |
| TouringMusician.Node.constructor | touring-musician/app/src/main/java/com/google/engedu/touringmusician/CircularLinkedList.java:33-37 | a new node is a ring of one: its prev and next are itself |
| TouringMusician.CircularLinkedList.constructor | touring-musician/app/src/main/java/com/google/engedu/touringmusician/CircularLinkedList.java:40 | a new list is empty and valid |
| TouringMusician.CircularLinkedList.InsertNode | touring-musician/app/src/main/java/com/google/engedu/touringmusician/CircularLinkedList.java:42-50 | the new node goes immediately before the given node in the ring read from head (at the end when that node is head); the relative order of the other nodes is unchanged; the ring stays doubly linked with distinct nodes |
| TouringMusician.NextLinks | touring-musician/app/src/main/java/com/google/engedu/touringmusician/CircularLinkedList.java:45-48 | after the two `next` writes, every node's next is its successor in the new ring |
| TouringMusician.PrevLinks | touring-musician/app/src/main/java/com/google/engedu/touringmusician/CircularLinkedList.java:46-49 | after the two `prev` writes, every node's prev is its predecessor in the new ring |
| TouringMusician.CircularLinkedList.InsertBeginning | touring-musician/app/src/main/java/com/google/engedu/touringmusician/CircularLinkedList.java:52-60 | the points read from head become the new point followed by the old ones |
| TouringMusician.CircularLinkedList.TotalDistance | touring-musician/app/src/main/java/com/google/engedu/touringmusician/CircularLinkedList.java:66-76 | on an empty list there is no result (the source dereferences null); otherwise the result is the sum of the edges leaving every node except head |
| TouringMusician.TotalMissesHeadEdge | touring-musician/app/src/main/java/com/google/engedu/touringmusician/CircularLinkedList.java:66-76 | the closed tour is that sum plus the one edge from head to head.next |
| TouringMusician.CircularLinkedList.InsertNearest | touring-musician/app/src/main/java/com/google/engedu/touringmusician/CircularLinkedList.java:78-99 | an empty list gets the point as head; otherwise head is unchanged, and the point goes right before the nearest non-head node whose distance is below Float.MAX_VALUE (ties to the first), or before head when there is none; with one node the point is appended |
| TouringMusician.NearestStep | touring-musician/app/src/main/java/com/google/engedu/touringmusician/CircularLinkedList.java:89-96 | one pass of the scan keeps the candidate nearest among the nodes seen so far, replacing it only by a strictly closer node |
| TouringMusician.NearestUnique | touring-musician/app/src/main/java/com/google/engedu/touringmusician/CircularLinkedList.java:85-96 | the nearest choice is unique |
| TouringMusician.StrictlyNearestChosen | touring-musician/app/src/main/java/com/google/engedu/touringmusician/CircularLinkedList.java:85-96 | a non-head node that is strictly nearest, and within Float.MAX_VALUE, is the one chosen |
| TouringMusician.CircularLinkedList.InsertSmallest | touring-musician/app/src/main/java/com/google/engedu/touringmusician/CircularLinkedList.java:101-114 | an empty list gets the point as head; a single node gets the point after it; with two or more nodes the list is unchanged |
| TouringMusician.CircularLinkedList.Reset | touring-musician/app/src/main/java/com/google/engedu/touringmusician/CircularLinkedList.java:116-118 | the list becomes empty |
| TouringMusician.CircularLinkedListIterator.constructor | touring-musician/app/src/main/java/com/google/engedu/touringmusician/CircularLinkedList.java:124-126 | a new iterator, as `iterator()` creates it, starts at head |
| TouringMusician.CircularLinkedListIterator.HasNext | touring-musician/app/src/main/java/com/google/engedu/touringmusician/CircularLinkedList.java:129-131 | there is a next point exactly while not every node has been visited |
| TouringMusician.CircularLinkedListIterator.Next | touring-musician/app/src/main/java/com/google/engedu/touringmusician/CircularLinkedList.java:134-141 | the point returned is the one at the current position in the order from head, and the position advances by one |
| TouringMusician.Iterate | touring-musician/app/src/main/java/com/google/engedu/touringmusician/CircularLinkedList.java:120-152 | iterating to the end yields every point once, in order from head, and nothing for an empty list |
| ScarnesDice.RollEffect | ScarnesDice/app/src/main/java/com/example/scarnesdice/MainActivity.java:69-84 | a roll changes only the current player's turn score: a 1 makes it 0, and any other face adds to it |
| ScarnesDice.MainActivity.RollDice | ScarnesDice/app/src/main/java/com/example/scarnesdice/MainActivity.java:69-84 | the fields change as a roll with that face specifies, and the face is returned |
| ScarnesDice.CheckWinIff | ScarnesDice/app/src/main/java/com/example/scarnesdice/MainActivity.java:105-116 | checkWin ends the game if and only if a total has reached 100, changing nothing else; it reports the CPU whenever the CPU's total is at least 100 |
| ScarnesDice.MainActivity.CheckWinner | ScarnesDice/app/src/main/java/com/example/scarnesdice/MainActivity.java:105-116 | the fields change as checkWin specifies, and the reported winner is returned |
| ScarnesDice.HoldBanks | ScarnesDice/app/src/main/java/com/example/scarnesdice/MainActivity.java:118-130 | a hold adds the current player's turn score to their total and zeroes the turn score; the other player's scores stay; the game is over exactly when a total has reached 100 |
| ScarnesDice.MainActivity.HoldScore | ScarnesDice/app/src/main/java/com/example/scarnesdice/MainActivity.java:118-130 | the fields change as a hold specifies |
| ScarnesDice.TotalsNeverDecrease | ScarnesDice/app/src/main/java/com/example/scarnesdice/MainActivity.java:69-151 | everything except reset keeps the scores non-negative and never lowers a total |
| ScarnesDice.GameOverStays | ScarnesDice/app/src/main/java/com/example/scarnesdice/MainActivity.java:105-151 | once the game is over, only reset can undo that, and the CPU step (which returns early when the game is over) stops |
| ScarnesDice.TransitionEffect | ScarnesDice/app/src/main/java/com/example/scarnesdice/MainActivity.java:144-151 | the hand-over banks the player's turn score, and it gives the turn to the CPU exactly when the game is not over |
| ScarnesDice.MainActivity.TransitionToCpuTurn | ScarnesDice/app/src/main/java/com/example/scarnesdice/MainActivity.java:144-151 | the fields change as the hand-over specifies, and the CPU's turn is scheduled exactly when the game is not over |
| ScarnesDice.CpuStepEffect | ScarnesDice/app/src/main/java/com/example/scarnesdice/MainActivity.java:32-57 | in one CPU step, a 1 gives the turn back with nothing banked; a turn score that reaches 15 is banked and the turn goes back; otherwise the CPU rolls again unless the game is over; the player's scores stay |
| ScarnesDice.CpuHoldsBetween15And20 | ScarnesDice/app/src/main/java/com/example/scarnesdice/MainActivity.java:32-46 | when the CPU banks, it banks between 15 and 20 points |
| ScarnesDice.MainActivity.CpuRun | ScarnesDice/app/src/main/java/com/example/scarnesdice/MainActivity.java:35-57 | the fields change as one CPU step specifies, and the step's next action (stop, give the turn back, roll again) is returned |
| ScarnesDice.CpuTurnEnds | ScarnesDice/app/src/main/java/com/example/scarnesdice/MainActivity.java:35-57 | given at least (15 - turn score)/2 dice faces, the CPU's turn ends within them |
| ScarnesDice.CpuTurnBanks | ScarnesDice/app/src/main/java/com/example/scarnesdice/MainActivity.java:35-57 | a whole CPU turn leaves the player's scores alone; when it ends the turn is the player's with the CPU's turn score at 0, having banked nothing or between 15 and 20 points; it stops only once the CPU has won |
| ScarnesDice.MainActivity.RunCpuTurn | ScarnesDice/app/src/main/java/com/example/scarnesdice/MainActivity.java:35-57 | running the posted step once per face until the step stops rolling gives the state, the number of faces used and the final action that the whole-turn function specifies |
| ScarnesDice.PlayerRollOfOne | ScarnesDice/app/src/main/java/com/example/scarnesdice/MainActivity.java:167-183 | a player's roll of 1 leaves the turn score at 0, schedules the hand-over, and the hand-over then banks nothing |
| ScarnesDice.MainActivity.OnRollClick | ScarnesDice/app/src/main/java/com/example/scarnesdice/MainActivity.java:167-183 | the fields change as the roll button specifies, and the hand-over is scheduled exactly after a 1 |
| ScarnesDice.ResetAsWrittenKeepsTurnScore | ScarnesDice/app/src/main/java/com/example/scarnesdice/MainActivity.java:132-135 | with resetGame as written, a player's turn score of 4 survives the reset, so the reset game is not the initial one and the next hold banks 4 |
| ScarnesDice.ResetStartsOver | ScarnesDice/app/src/main/java/com/example/scarnesdice/MainActivity.java:132-135 | the corrected reset returns to the initial state from any state |
| ScarnesDice.ResetAsWrittenKeepsOnlyTurnScore | ScarnesDice/app/src/main/java/com/example/scarnesdice/MainActivity.java:132-135 | for every state, resetGame as written is the intended reset except that the player's turn score is kept; it reaches the initial state exactly when that turn score is 0, and the player's next hold banks the kept score |
| ScarnesDice.MainActivity.ResetGame | ScarnesDice/app/src/main/java/com/example/scarnesdice/MainActivity.java:132-142 | the fields change as resetGame is written: both totals and the CPU's turn score become 0, the player moves next, the game is not over, and the player's turn score keeps its value (see Findings) |
| ScarnesDice.MainActivity.constructor | ScarnesDice/app/src/main/java/com/example/scarnesdice/MainActivity.java:26-31 | the activity starts with every score 0, the player to move and the game not over |
| WordStack.OfWordLengthExactly | word-stack/app/src/main/java/com/google/engedu/wordstack/MainActivity.java:41-63 | the filter keeps a word if and only if it has 5 letters (WORD_LENGTH) |
| WordStack.OfWordLengthAppend | word-stack/app/src/main/java/com/google/engedu/wordstack/MainActivity.java:59-64 | filtering commutes with concatenation, so kept words keep the order of their lines |
| WordStack.WordStackActivity.LoadWords | word-stack/app/src/main/java/com/google/engedu/wordstack/MainActivity.java:59-64 | the loading loop appends exactly the trimmed lines of length 5, in input order, and every stored word has 5 letters |
| WordStack.WordStackActivity.constructor | word-stack/app/src/main/java/com/google/engedu/wordstack/MainActivity.java:44-48 | the activity starts with no words, no chosen words and an empty stack |
| WordStack.ShuffleIsInterleaving | word-stack/app/src/main/java/com/google/engedu/wordstack/MainActivity.java:137-157 | the shuffled word interleaves the two words, each in its own order; it has length \|a\|+\|b\| and exactly their letters |
| WordStack.InterleavingLetters | word-stack/app/src/main/java/com/google/engedu/wordstack/MainActivity.java:137-157 | an interleaving has exactly the letters of both words |
| WordStack.ShuffleFromEnds | word-stack/app/src/main/java/com/google/engedu/wordstack/MainActivity.java:142-154 | the loop ends with at least one pointer at 5; the remainders of both words are appended in order at the end |
| WordStack.AllZeroFlipsConcatenate | word-stack/app/src/main/java/com/google/engedu/wordstack/MainActivity.java:142-154 | with every coin flip 0, the result is a followed by b |
| WordStack.ShuffleCombinedWord | word-stack/app/src/main/java/com/google/engedu/wordstack/MainActivity.java:137-157 | the pointer loop builds exactly the shuffle of the two words for the flips drawn |
| WordStack.SelectRandomInt | word-stack/app/src/main/java/com/google/engedu/wordstack/MainActivity.java:159-162 | with a non-negative offset the result lies in [0, size); a negative offset can give a negative result |
| WordStack.StartIndicesValid | word-stack/app/src/main/java/com/google/engedu/wordstack/MainActivity.java:187-191 | with two or more words, both indices are valid; the first is the first draw, and the second never names the last word |
| WordStack.StartIndicesMayCoincide | word-stack/app/src/main/java/com/google/engedu/wordstack/MainActivity.java:187-191 | the two indices can be equal, so both chosen words can be the same word |
| WordStack.PushedWordPopsInOrder | word-stack/app/src/main/java/com/google/engedu/wordstack/MainActivity.java:164-170 | after a word is pushed, its first letter is on top, and popping its length yields the word in order |
| WordStack.WordStackActivity.PushToStackedLayout | word-stack/app/src/main/java/com/google/engedu/wordstack/MainActivity.java:164-170 | the descending loop pushes the word's letters from last to first, reversed onto the stack |
| WordStack.ReversedInvolution | word-stack/app/src/main/java/com/google/engedu/wordstack/MainActivity.java:164-170 | the order in which the tiles are pushed, last letter first, undone by a second reversal, keeps every letter |
| WordStack.WordStackActivity.OnStartGame | word-stack/app/src/main/java/com/google/engedu/wordstack/MainActivity.java:182-199 | the stack is cleared; with two or more words, the chosen words are those at the two drawn indices, and the stack holds their shuffle, first letter on top; with fewer than two words the result is false, standing for the exception `nextInt(0)` throws at line 160 |

## Left out

- Android views and plumbing are not modelled: `onCreate`, touch and drag listeners, text views, toasts, button enabling, colours, `TreeNode.draw`, `TreeNode.click` and `invalidate`. They hold no game logic.
- Reading the word files (`BufferedReader`, `AssetManager`, `IOException`) is not modelled. The input is the sequence of lines.
- `java.util.Random` is not modelled. The start index, dice faces, coin flips and index draws are parameters, with the ranges `nextInt` guarantees.
- `Handler.post` and `postDelayed` in Scarne's Dice are not modelled, because they only delay. The CPU's turn is the posted step run once per face.
- Distances are not computed with `Math.sqrt`/`Math.pow` in float arithmetic. The touring musician takes an abstract real-valued distance, and a real constant stands for `Float.MAX_VALUE`, so rounding is not captured.
- The iteration order of `HashSet` and `HashMap` is unspecified. Families are sets, and the query results are fixed as multisets (no duplicates where the source has none), not as ordered lists.
- `LetterTile` and `StackedLayout` are not part of this model. So `onUndo`, `placedTiles`, and moving tiles between layouts are left out. The stacked layout is a sequence of letters with its top at the end.
- Java's 32-bit `int` is not modelled: scores, tree values, heights and coordinates are unbounded integers.
- Characters are Unicode scalar values. `Arrays.sort` on a `char[]` orders UTF-16 code units, and `String.length()` counts them, so neither the signatures of words outside the Basic Multilingual Plane nor the length filter of the word-stack loader (which would count such a character twice) are modelled for those words.
- Anagrams.AnagramDictionary.GetAnagramsWithAtLeastKMoreLetters: k is a natural number, so a negative k, for which the source recurses without end, is not modelled.
- Anagrams.AnagramDictionary.PickGoodStarterWord: the `Error` the source throws when no word qualifies, and the exception from `nextInt(0)` on an empty list, are modelled as two `Failure` results.
- TouringMusician.CircularLinkedList.TotalDistance: the `NullPointerException` on an empty list is modelled as `None`.
- TouringMusician.CircularLinkedListIterator.Next: requires `HasNext()`, as the `Iterator` protocol asks of callers; the `NullPointerException` that `next()` throws once iteration has ended is not modelled.
- WordStack.WordStackActivity.OnStartGame: the `IllegalArgumentException` from `nextInt(0)` with fewer than two words is modelled as the result false; `onStartGame` itself always returns true.
- BstGuesser.TreeNode.Insert: the `NullPointerException` the source can throw during the rotations is modelled as a `None` result.
- BstGuesser.TreeNode.RotateRight and BstGuesser.TreeNode.RotateLeft require the child they dereference. Their value-level counterparts `RotateRightTree`/`RotateLeftTree` return `None` without it, and `Insert` only calls the methods where the child exists.
- The heap methods of `TreeNode` take the tree's shape as a ghost parameter and require that no node occurs twice in it. Trees built by `insert` never share nodes, so aliasing between subtrees is not modelled.
- `TreeNode.showValue`, `color` and `getValue` are not modelled; they serve the UI only.

## Findings

| source | as written | input that shows it | evidently intended | confidence | as-written member | corrected member |
|---|---|---|---|---|---|---|
| bst-viewer/app/src/main/java/com/google/engedu/bstguesser/TreeNode.java:100-106 | The double-rotation case is chosen by comparing the inserted value with the child's value. Leaf and missing child share height 0, so that comparison can pick a left rotation of a child whose right child is missing, and `rotateLeft` then dereferences null. | inserting 2, 6, 7, 9, 15, 12, 12, 12, 2, 9, 9, 7 into an empty tree fails at the last 7 | insertion never fails; the double-rotation case is chosen by the heavy child's own balance factor | not executed | BstGuesser.AsWrittenInsertCrashes | BstGuesser.InsertAllByChildBalance, BstGuesser.TreeNode.Insert |
| ScarnesDice/app/src/main/java/com/example/scarnesdice/MainActivity.java:133 | `userTotalScore = userTotalScore = cpuTurnScore = cpuTotalScore = 0` names the user's total twice and never zeroes `userTurnScore` | roll a 4 and reset: the turn score is still 4, and the next hold banks 4 points into the new game | every score is zeroed, so the game restarts from its initial state | not executed | ScarnesDice.ResetAsWrittenKeepsTurnScore, ScarnesDice.ResetAsWrittenKeepsOnlyTurnScore, ScarnesDice.MainActivity.ResetGame | ScarnesDice.ResetStartsOver |
