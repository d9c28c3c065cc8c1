/**
 * The Python string operations the channel script relies on, over `string`
 * (a sequence of characters): substring membership (`sub in s`),
 * `startswith`, `split(sep, 1)`, `strip()`, `lower()`, `re.split` on a
 * one-character class, and `sep.join(parts)`.
 */
module Text {
  import opened Wrappers
  import opened Selection

  /** `sub` occurs in `s` starting at index `k`. */
  predicate OccursAt(s: string, sub: string, k: nat)
  {
    k + |sub| <= |s| && s[k..k + |sub|] == sub
  }

  /** Python's `sub in s`. */
  predicate Contains(s: string, sub: string)
  {
    exists k: nat | k <= |s| :: OccursAt(s, sub, k)
  }

  /** Python's `s.startswith(prefix)`. */
  predicate StartsWith(s: string, prefix: string)
  {
    OccursAt(s, prefix, 0)
  }

  /** The positions of `s` where `sub` starts, as a predicate on positions. */
  function OccurrencesOf(s: string, sub: string): nat -> bool
  {
    (k: nat) => OccursAt(s, sub, k)
  }

  /** The index of the first occurrence of `sub` in `s`, if there is one. */
  function Find(s: string, sub: string): (r: Option<nat>)
    ensures r.Some? <==> Contains(s, sub)
    ensures r.Some? ==> OccursAt(s, sub, r.value)
    ensures r.Some? ==> forall j: nat :: j < r.value ==> !OccursAt(s, sub, j)
  {
    var r := FirstWhere(OccurrencesOf(s, sub), 0, |s| + 1);
    assert forall j: nat :: OccurrencesOf(s, sub)(j) == OccursAt(s, sub, j);
    r
  }

  /** An occurrence inside a prefix of `s` is an occurrence in `s`. */
  lemma PrefixOccurrence(s: string, n: nat, sub: string, j: nat)
    requires n <= |s|
    requires OccursAt(s[..n], sub, j)
    ensures OccursAt(s, sub, j)
  {
    assert s[..n][j..j + |sub|] == s[j..j + |sub|];
  }

  /** Python's `s.split(sep, 1)[0]`: everything before the first `sep`, or all of `s`. */
  function BeforeFirst(s: string, sep: string): (r: string)
    requires |sep| > 0
    ensures StartsWith(s, r)
    ensures !Contains(r, sep)
    ensures forall j: nat :: j < |r| ==> !OccursAt(s, sep, j)
    ensures Contains(s, sep) ==> OccursAt(s, sep, |r|)
    ensures !Contains(s, sep) ==> r == s
  {
    match Find(s, sep)
    case None => s
    case Some(k) =>
      assert forall j: nat | j <= k :: OccursAt(s[..k], sep, j) ==> OccursAt(s, sep, j) by {
        forall j: nat | j <= k && OccursAt(s[..k], sep, j) ensures OccursAt(s, sep, j) {
          PrefixOccurrence(s, k, sep, j);
        }
      }
      s[..k]
  }

  /** Python's `s.split(sep, 1)[1]`; `None` where Python raises IndexError. */
  function AfterFirst(s: string, sep: string): (r: Option<string>)
    requires |sep| > 0
    ensures r.Some? <==> Contains(s, sep)
    ensures r.Some? ==> s == BeforeFirst(s, sep) + sep + r.value
  {
    match Find(s, sep)
    case None => None
    case Some(k) =>
      assert s == s[..k] + s[k..k + |sep|] + s[k + |sep|..];
      Some(s[k + |sep|..])
  }

  /**
   * The characters `str.strip()` removes, restricted to the ASCII and
   * Latin-1 range: tab to carriage return, the four information
   * separators, space, next-line and no-break space.
   */
  predicate IsSpace(c: char)
  {
    var n := c as int;
    n == 32 || 9 <= n <= 13 || 28 <= n <= 31 || n == 0x85 || n == 0xA0
  }

  /** The length of the run of whitespace at the start of `s`. */
  function LeadingSpaces(s: string): (n: nat)
    ensures n <= |s|
    ensures forall k :: 0 <= k < n ==> IsSpace(s[k])
    ensures n < |s| ==> !IsSpace(s[n])
  {
    if |s| == 0 || !IsSpace(s[0]) then 0 else 1 + LeadingSpaces(s[1..])
  }

  /** The length of the run of whitespace at the end of `s`. */
  function TrailingSpaces(s: string): (n: nat)
    ensures n <= |s|
    ensures forall k :: |s| - n <= k < |s| ==> IsSpace(s[k])
    ensures n < |s| ==> !IsSpace(s[|s| - 1 - n])
  {
    if |s| == 0 || !IsSpace(s[|s| - 1]) then 0 else 1 + TrailingSpaces(s[..|s| - 1])
  }

  /**
   * Python's `s.strip()`: the slice of `s` left after removing whitespace
   * from both ends; everything removed is whitespace and the result neither
   * starts nor ends with whitespace.
   */
  function Strip(s: string): (r: string)
    ensures OccursAt(s, r, LeadingSpaces(s))
    ensures forall k :: 0 <= k < LeadingSpaces(s) ==> IsSpace(s[k])
    ensures forall k :: LeadingSpaces(s) + |r| <= k < |s| ==> IsSpace(s[k])
    ensures |r| > 0 ==> !IsSpace(r[0]) && !IsSpace(r[|r| - 1])
  {
    var rest := s[LeadingSpaces(s)..];
    rest[..|rest| - TrailingSpaces(rest)]
  }

  /** A string whose first character is not whitespace keeps that character in front after `strip()`. */
  lemma StripKeepsHead(s: string)
    requires |s| > 0 && !IsSpace(s[0])
    ensures |Strip(s)| > 0 && Strip(s)[0] == s[0]
  {
    assert LeadingSpaces(s) == 0;
  }

  /** Whatever occurs in `strip(s)` occurs in `s`. */
  lemma StripContains(s: string, w: string)
    requires Contains(Strip(s), w)
    ensures Contains(s, w)
  {
    ContainsTransitive(s, Strip(s), w);
  }

  /** Python's `c.lower()` on the ASCII letters. */
  function LowerChar(c: char): char
  {
    if 'A' <= c <= 'Z' then (c as int + 32) as char else c
  }

  /** Python's `s.lower()` on the ASCII letters. */
  function Lower(s: string): (r: string)
    ensures |r| == |s|
    ensures forall k :: 0 <= k < |s| ==> r[k] == LowerChar(s[k])
    ensures forall k :: 0 <= k < |r| ==> !('A' <= r[k] <= 'Z')
    ensures forall k :: 0 <= k < |s| && !('A' <= s[k] <= 'Z') ==> r[k] == s[k]
    ensures forall k :: 0 <= k < |s| && 'A' <= s[k] <= 'Z' ==> r[k] as int == s[k] as int + 32
  {
    seq(|s|, k requires 0 <= k < |s| => LowerChar(s[k]))
  }

  /** Python's `sep.join(parts)`. */
  function JoinWith(parts: seq<string>, sep: string): string
  {
    if |parts| == 0 then ""
    else if |parts| == 1 then parts[0]
    else parts[0] + sep + JoinWith(parts[1..], sep)
  }

  /**
   * Python's `re.split('[...]', s)` for a class of single characters: the
   * maximal runs between separator characters, empty runs included.
   */
  function SplitAny(s: string, seps: set<char>): (parts: seq<string>)
    ensures |parts| >= 1
    ensures forall k, j :: 0 <= k < |parts| && 0 <= j < |parts[k]| ==> parts[k][j] !in seps
  {
    if |s| == 0 then [""]
    else
      var rest := SplitAny(s[1..], seps);
      if s[0] in seps then [""] + rest
      else [[s[0]] + rest[0]] + rest[1..]
  }

  /** `s` with every separator character replaced by `c`. */
  function ReplaceAll(s: string, seps: set<char>, c: char): (r: string)
    ensures |r| == |s|
  {
    seq(|s|, k requires 0 <= k < |s| => if s[k] in seps then c else s[k])
  }

  /**
   * Splitting and joining back with any one separator character gives the
   * input with all separators unified: the split loses nothing but the
   * identity of each separator.
   */
  lemma {:induction false} SplitJoinRoundTrip(s: string, seps: set<char>, c: char)
    requires c in seps
    ensures JoinWith(SplitAny(s, seps), [c]) == ReplaceAll(s, seps, c)
    decreases |s|
  {
    if |s| > 0 {
      var rest := SplitAny(s[1..], seps);
      SplitJoinRoundTrip(s[1..], seps, c);
      var head := if s[0] in seps then c else s[0];
      assert ReplaceAll(s, seps, c) == [head] + ReplaceAll(s[1..], seps, c);
      if s[0] in seps {
        var parts := [""] + rest;
        assert parts[1..] == rest;
        assert JoinWith(parts, [c]) == "" + [c] + JoinWith(rest, [c]);
      } else {
        var parts := [[s[0]] + rest[0]] + rest[1..];
        if |rest| == 1 {
          assert JoinWith(parts, [c]) == [s[0]] + JoinWith(rest, [c]);
        } else {
          assert parts[1..] == rest[1..];
          assert JoinWith(rest, [c]) == rest[0] + [c] + JoinWith(rest[1..], [c]);
          assert JoinWith(parts, [c]) == [s[0]] + rest[0] + [c] + JoinWith(rest[1..], [c]);
        }
      }
    }
  }

  /** An occurrence of `w` inside an occurrence of `b` is an occurrence of `w` in `a`. */
  lemma ContainsTransitive(a: string, b: string, w: string)
    requires Contains(a, b) && Contains(b, w)
    ensures Contains(a, w)
  {
    var i: nat :| i <= |a| && OccursAt(a, b, i);
    var j: nat :| j <= |b| && OccursAt(b, w, j);
    assert forall t :: 0 <= t < |w| ==> a[i + j + t] == b[j + t] == w[t];
    assert a[i + j..i + j + |w|] == w;
    assert OccursAt(a, w, i + j);
  }

  /** Appending text after `a` keeps every occurrence in `a`. */
  lemma ContainsInLeft(a: string, b: string, w: string)
    requires Contains(a, w)
    ensures Contains(a + b, w)
  {
    var k: nat :| k <= |a| && OccursAt(a, w, k);
    assert (a + b)[k..k + |w|] == a[k..k + |w|];
    assert OccursAt(a + b, w, k);
  }

  /** Prepending text before `b` keeps every occurrence in `b`. */
  lemma ContainsInRight(a: string, b: string, w: string)
    requires Contains(b, w)
    ensures Contains(a + b, w)
  {
    var k: nat :| k <= |b| && OccursAt(b, w, k);
    assert (a + b)[|a| + k..|a| + k + |w|] == b[k..k + |w|];
    assert OccursAt(a + b, w, |a| + k);
  }

  /** The character at position p of `s` inside an occurrence of `w` at k is w[p - k]. */
  lemma WindowChar(s: string, w: string, k: nat, p: nat)
    requires OccursAt(s, w, k) && k <= p < k + |w|
    ensures w[p - k] == s[p]
  {
    assert s[k..k + |w|][p - k] == s[p];
  }

  /** A word without the character `c` that occurs in `a + [c] + b` occurs in `a` or in `b`. */
  lemma ContainsAcross(a: string, c: char, b: string, w: string)
    requires c !in w
    requires Contains(a + [c] + b, w)
    ensures Contains(a, w) || Contains(b, w)
  {
    var s := a + [c] + b;
    var k: nat :| k <= |s| && OccursAt(s, w, k);
    if k + |w| <= |a| {
      assert a[k..k + |w|] == s[k..k + |w|];
      assert OccursAt(a, w, k);
    } else if k > |a| {
      var k' := k - |a| - 1;
      assert forall t :: 0 <= t < |w| ==> b[k' + t] == s[k + t] == w[t];
      assert b[k'..k' + |w|] == w;
      assert OccursAt(b, w, k');
    } else {
      WindowChar(s, w, k, |a|);
      assert false;
    }
  }

  /**
   * A word without the separator character occurs in the joined string
   * exactly when it occurs in one of the parts: joining creates no new
   * occurrences across part boundaries.
   */
  lemma {:induction false} JoinedContains(parts: seq<string>, sep: char, w: string)
    requires |parts| > 0
    requires sep !in w
    ensures Contains(JoinWith(parts, [sep]), w) <==> exists k :: 0 <= k < |parts| && Contains(parts[k], w)
    decreases |parts|
  {
    if |parts| == 1 {
      assert JoinWith(parts, [sep]) == parts[0];
    } else {
      var tail := JoinWith(parts[1..], [sep]);
      assert JoinWith(parts, [sep]) == parts[0] + [sep] + tail;
      JoinedContains(parts[1..], sep, w);
      if Contains(JoinWith(parts, [sep]), w) {
        ContainsAcross(parts[0], sep, tail, w);
        if Contains(tail, w) {
          var k :| 0 <= k < |parts[1..]| && Contains(parts[1..][k], w);
          assert Contains(parts[k + 1], w);
        } else {
          assert Contains(parts[0], w);
        }
      }
      if exists k :: 0 <= k < |parts| && Contains(parts[k], w) {
        var k :| 0 <= k < |parts| && Contains(parts[k], w);
        if k == 0 {
          ContainsInLeft(parts[0], [sep] + tail, w);
          assert parts[0] + ([sep] + tail) == parts[0] + [sep] + tail;
        } else {
          assert parts[1..][k - 1] == parts[k];
          ContainsInRight(parts[0] + [sep], tail, w);
        }
      }
    }
  }
}
