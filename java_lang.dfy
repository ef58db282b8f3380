/** The few pieces of java.lang that the modelled code leans on, written out so that the
    models can state exactly what they compute: String.trim, String.contains, and int
    division and remainder, which truncate toward zero in Java. */
module JavaLang {

  /** String.trim treats every character at or below U+0020 as removable space. */
  predicate IsTrimSpace(c: char) {
    c <= ' '
  }

  /** Drops the leading space characters. */
  function TrimStart(s: string): string {
    if s != [] && IsTrimSpace(s[0]) then TrimStart(s[1..]) else s
  }

  /** Drops the trailing space characters. */
  function TrimEnd(s: string): string {
    if s != [] && IsTrimSpace(s[|s| - 1]) then TrimEnd(s[..|s| - 1]) else s
  }

  /** String.trim: `s` without its leading and trailing space characters. */
  function Trim(s: string): string {
    TrimEnd(TrimStart(s))
  }

  /** TrimStart leaves a suffix of s that does not start with a space, and drops only
      spaces. */
  lemma {:induction false} TrimStartSpec(s: string)
    ensures var r := TrimStart(s);
            && |r| <= |s| && r == s[|s| - |r|..]
            && (r != [] ==> !IsTrimSpace(r[0]))
            && (forall i :: 0 <= i < |s| - |r| ==> IsTrimSpace(s[i]))
  {
    if s != [] && IsTrimSpace(s[0]) {
      TrimStartSpec(s[1..]);
      var r := TrimStart(s);
      assert r == TrimStart(s[1..]);
      forall i | 0 <= i < |s| - |r| ensures IsTrimSpace(s[i]) {
        if i > 0 {
          assert s[i] == s[1..][i - 1];
        }
      }
    }
  }

  /** TrimEnd leaves a prefix of s that does not end with a space, and drops only spaces. */
  lemma {:induction false} TrimEndSpec(s: string)
    ensures var r := TrimEnd(s);
            && |r| <= |s| && r == s[..|r|]
            && (r != [] ==> !IsTrimSpace(r[|r| - 1]))
            && (forall i :: |r| <= i < |s| ==> IsTrimSpace(s[i]))
  {
    if s != [] && IsTrimSpace(s[|s| - 1]) {
      var init := s[..|s| - 1];
      TrimEndSpec(init);
      var r := TrimEnd(s);
      assert r == TrimEnd(init);
      assert r == init[..|r|] == s[..|r|];
      forall i | |r| <= i < |s| ensures IsTrimSpace(s[i]) {
        if i < |s| - 1 {
          assert s[i] == init[i];
        }
      }
    }
  }

  /** Trim keeps a contiguous block of s that neither starts nor ends with a space, and
      everything it drops before and after that block is space. */
  lemma TrimSpec(s: string)
    ensures var r, lo := Trim(s), |s| - |TrimStart(s)|;
            && 0 <= lo && lo + |r| <= |s| && r == s[lo..lo + |r|]
            && (forall i :: 0 <= i < lo ==> IsTrimSpace(s[i]))
            && (forall i :: lo + |r| <= i < |s| ==> IsTrimSpace(s[i]))
            && (r != [] ==> !IsTrimSpace(r[0]) && !IsTrimSpace(r[|r| - 1]))
  {
    var t := TrimStart(s);
    var r := TrimEnd(t);
    TrimStartSpec(s);
    TrimEndSpec(t);
    var lo := |s| - |t|;
    PrefixOfSuffix(s, lo, |r|);
    forall i | lo + |r| <= i < |s| ensures IsTrimSpace(s[i]) {
      assert s[i] == t[i - lo];
    }
  }

  /** A prefix of a suffix is a block. */
  lemma PrefixOfSuffix<T>(s: seq<T>, lo: nat, n: nat)
    requires lo + n <= |s|
    ensures s[lo..][..n] == s[lo..lo + n]
  {
  }

  /** The lines each trimmed. */
  function Trimmed(lines: seq<string>): (ts: seq<string>)
    ensures |ts| == |lines|
    ensures forall i :: 0 <= i < |lines| ==> ts[i] == Trim(lines[i])
  {
    seq(|lines|, i requires 0 <= i < |lines| => Trim(lines[i]))
  }

  /** Trimming the lines one more line at a time. */
  lemma TrimmedAppend(lines: seq<string>, n: nat)
    requires n < |lines|
    ensures Trimmed(lines[..n + 1]) == Trimmed(lines[..n]) + [Trim(lines[n])]
  {
  }

  /** String.contains: `part` occurs in `s` as a contiguous block (the empty string
      occurs everywhere). */
  predicate Contains(s: string, part: string) {
    exists i :: 0 <= i <= |s| - |part| && OccursAt(s, part, i)
  }

  /** `part` occurs in `s` starting at index i. */
  predicate OccursAt(s: string, part: string, i: int) {
    0 <= i <= |s| - |part| && s[i..i + |part|] == part
  }

  /** The remainder of a number below twice the divisor. */
  lemma ModInRange(i: int, n: int)
    requires n > 0 && 0 <= i < 2 * n
    ensures i % n == (if i < n then i else i - n)
  {
    if i < n {
      assert i == 0 * n + i;
    } else {
      assert i == 1 * n + (i - n);
    }
  }

  /** Java's int division `a / b` for a positive divisor: the quotient truncated toward zero,
      that is, the multiple q * b nearest to a on the side of zero. */
  function JavaDiv(a: int, b: int): (q: int)
    requires b > 0
    ensures a >= 0 ==> 0 <= q && q * b <= a < q * b + b
    ensures a < 0 ==> q <= 0 && q * b - b < a <= q * b
  {
    if a >= 0 then a / b else -((-a) / b)
  }

  /** Java's int remainder `a % b` for a positive divisor: it has the sign of `a`. */
  function JavaRem(a: int, b: int): (r: int)
    requires b > 0
    ensures a >= 0 ==> 0 <= r < b && r == a % b
    ensures a < 0 ==> -b < r <= 0
    ensures a == JavaDiv(a, b) * b + r
  {
    if a >= 0 then a % b else -((-a) % b)
  }
}

/** Option and Result, for the error paths of the modelled code. */
module Wrappers {
  datatype Option<T> = None | Some(value: T)

  datatype Result<T, E> = Success(value: T) | Failure(error: E)
}
