/**
 * The JavaScript string operations the core relies on: `indexOf`,
 * `includes`, `startsWith` and `split` with a non-empty string separator,
 * together with `Join`, the inverse of `split`.
 */
module JsStrings {

  /** `sub` occurs in `s` starting at index `k`. */
  predicate OccursAt(s: string, sub: string, k: nat) {
    k + |sub| <= |s| && s[k..k + |sub|] == sub
  }

  lemma OccursAtTail(s: string, sub: string, k: nat)
    requires |s| > 0
    ensures OccursAt(s, sub, k + 1) <==> OccursAt(s[1..], sub, k)
  {
    if k + 1 + |sub| <= |s| {
      assert s[1..][k..k + |sub|] == s[k + 1..k + 1 + |sub|];
    }
  }

  /** `s.indexOf(sub)`: the first index at which `sub` occurs in `s`, or -1. */
  function IndexOf(s: string, sub: string): (r: int)
    ensures -1 <= r <= |s|
    ensures r >= 0 ==> OccursAt(s, sub, r)
    ensures forall k: nat :: (r < 0 || k < r) ==> !OccursAt(s, sub, k)
    decreases |s|
  {
    if |sub| > |s| then -1
    else if s[..|sub|] == sub then 0
    else
      var j := IndexOf(s[1..], sub);
      assert forall k: nat :: OccursAt(s, sub, k + 1) <==> OccursAt(s[1..], sub, k) by {
        forall k: nat ensures OccursAt(s, sub, k + 1) <==> OccursAt(s[1..], sub, k) {
          OccursAtTail(s, sub, k);
        }
      }
      assert forall k: nat :: k > 0 ==> (OccursAt(s, sub, k) <==> OccursAt(s[1..], sub, k - 1));
      if j < 0 then -1 else j + 1
  }

  /** `s.includes(sub)`. */
  predicate Includes(s: string, sub: string) {
    IndexOf(s, sub) >= 0
  }

  lemma IncludesIff(s: string, sub: string)
    ensures Includes(s, sub) <==> exists k: nat :: OccursAt(s, sub, k)
  {
    if Includes(s, sub) {
      assert OccursAt(s, sub, IndexOf(s, sub));
    }
  }

  /** A string includes every string it is the concatenation of. */
  lemma {:induction false} IncludesPiece(a: string, sub: string, b: string)
    ensures Includes(a + sub + b, sub)
  {
    var s := a + sub + b;
    assert s[|a|..|a| + |sub|] == sub;
    assert OccursAt(s, sub, |a|);
    IncludesIff(s, sub);
  }

  /** A string cannot include a string holding a character it lacks. */
  lemma {:induction false} MissingCharExcludes(s: string, sub: string, c: char)
    requires c in sub && c !in s
    ensures !Includes(s, sub)
  {
    var i :| 0 <= i < |sub| && sub[i] == c;
    forall k: nat ensures !OccursAt(s, sub, k) {
      if k + |sub| <= |s| {
        assert s[k..k + |sub|][i] == s[k + i];
      }
    }
    IncludesIff(s, sub);
  }

  /** For a one-character string, `includes` is membership of that character. */
  lemma IncludesOneChar(s: string, c: char)
    ensures Includes(s, [c]) <==> c in s
  {
    IncludesIff(s, [c]);
    if c in s {
      var k :| 0 <= k < |s| && s[k] == c;
      assert s[k..k + 1] == [c];
      assert OccursAt(s, [c], k);
    } else {
      forall k: nat ensures !OccursAt(s, [c], k) {
        if k + 1 <= |s| {
          assert s[k..k + 1][0] == s[k];
        }
      }
    }
  }

  /** `s.startsWith(prefix)`. */
  predicate StartsWith(s: string, prefix: string) {
    |prefix| <= |s| && s[..|prefix|] == prefix
  }

  /** `parts.join(sep)`. */
  function Join(parts: seq<string>, sep: string): string {
    if |parts| == 0 then ""
    else if |parts| == 1 then parts[0]
    else parts[0] + sep + Join(parts[1..], sep)
  }

  /** Joining one more part at the end appends the separator and that part. */
  lemma {:induction false} JoinSnoc(parts: seq<string>, p: string, sep: string)
    requires |parts| >= 1
    ensures Join(parts + [p], sep) == Join(parts, sep) + sep + p
  {
    if |parts| == 1 {
      assert (parts + [p])[1..] == [p];
    } else {
      assert (parts + [p])[1..] == parts[1..] + [p];
      JoinSnoc(parts[1..], p, sep);
    }
  }

  /** No occurrence of `sub` lies wholly inside a prefix of `s` ending at or before `s`'s first one. */
  lemma PrefixBeforeFirstOccurrence(s: string, sub: string, i: nat)
    requires |sub| > 0 && i <= |s|
    requires forall k: nat :: k < i ==> !OccursAt(s, sub, k)
    ensures !Includes(s[..i], sub)
  {
    forall k: nat ensures !OccursAt(s[..i], sub, k) {
      if k + |sub| <= i {
        assert s[..i][k..k + |sub|] == s[k..k + |sub|];
        assert !OccursAt(s, sub, k);
      }
    }
    IncludesIff(s[..i], sub);
  }

  /**
   * `s.split(sep)` for a non-empty separator: the pieces between successive
   * left-to-right occurrences of `sep`. Joining them back gives `s`.
   */
  function Split(s: string, sep: string): (parts: seq<string>)
    requires |sep| > 0
    ensures |parts| >= 1
    ensures Join(parts, sep) == s
    ensures StartsWith(s, sep) ==> |parts| >= 2 && parts[0] == ""
    decreases |s|
  {
    var i := IndexOf(s, sep);
    if i < 0 then
      [s]
    else
      var rest := Split(s[i + |sep|..], sep);
      assert StartsWith(s, sep) ==> OccursAt(s, sep, 0) && i == 0;
      assert s == s[..i] + sep + s[i + |sep|..];
      [s[..i]] + rest
  }

  /** No piece of a split contains the separator. */
  lemma {:induction false} SplitPiecesOmitSeparator(s: string, sep: string)
    requires |sep| > 0
    ensures forall i :: 0 <= i < |Split(s, sep)| ==> !Includes(Split(s, sep)[i], sep)
    decreases |s|
  {
    var i := IndexOf(s, sep);
    if i >= 0 {
      var tail := s[i + |sep|..];
      SplitPiecesOmitSeparator(tail, sep);
      PrefixBeforeFirstOccurrence(s, sep, i);
      assert Split(s, sep) == [s[..i]] + Split(tail, sep);
    }
  }

  /** A join of at least one part starts with its first part. */
  lemma {:induction false} JoinStartsWithFirst(parts: seq<string>, sep: string)
    requires |parts| >= 1
    ensures StartsWith(Join(parts, sep), parts[0])
  {
    if |parts| > 1 {
      var j := Join(parts, sep);
      assert j == parts[0] + (sep + Join(parts[1..], sep));
      assert j[..|parts[0]|] == parts[0];
    }
  }

  /**
   * The first piece of a split is the whole string, or is followed in the
   * string by the separator.
   */
  lemma SplitFirstPiece(s: string, sep: string)
    requires |sep| > 0
    ensures var first := Split(s, sep)[0];
      first == s || StartsWith(s, first + sep)
  {
    var i := IndexOf(s, sep);
    if i >= 0 {
      assert Split(s, sep)[0] == s[..i];
      assert s[..i + |sep|] == s[..i] + sep by {
        assert OccursAt(s, sep, i);
      }
    }
  }

  /** `last` is all of `s`, or the part of `s` after a final `sep`. */
  predicate EndsWithPiece(s: string, sep: string, last: string)
  {
    last == s || (|sep| + |last| <= |s| && s[|s| - |last| - |sep|..] == sep + last)
  }

  /**
   * The last piece of a split is the whole string, or a suffix of it that
   * the separator precedes.
   */
  lemma SplitLastPiece(s: string, sep: string)
    requires |sep| > 0
    ensures EndsWithPiece(s, sep, Last(Split(s, sep)))
  {
    var parts := Split(s, sep);
    var n := |parts|;
    if n > 1 {
      assert parts == parts[..n - 1] + [parts[n - 1]];
      JoinSnoc(parts[..n - 1], parts[n - 1], sep);
      var front := Join(parts[..n - 1], sep);
      assert s == front + (sep + parts[n - 1]);
      assert s[|front|..] == sep + parts[n - 1];
    }
  }

  /** A string without the separator splits into itself alone. */
  lemma SplitWithout(s: string, sep: string)
    requires |sep| > 0 && !Includes(s, sep)
    ensures Split(s, sep) == [s]
  {
  }

  /** The last element of a non-empty sequence, as `pop()` returns it. */
  function Last<T>(xs: seq<T>): T
    requires |xs| > 0
  {
    xs[|xs| - 1]
  }

  /**
   * In `a + sep + b` with a one-character `sep` absent from `b`, the only
   * piece without `sep` that ends the string as a whole or after a `sep`
   * is `b`.
   */
  lemma SuffixAfterSeparator(a: string, sep: string, b: string, last: string)
    requires |sep| == 1 && !Includes(b, sep) && !Includes(last, sep)
    requires EndsWithPiece(a + sep + b, sep, last)
    ensures last == b
  {
    var s := a + sep + b;
    var c := sep[0];
    assert sep == [c];
    IncludesOneChar(last, c);
    IncludesOneChar(b, c);
    assert s[|a|] == c;
    assert last != s by {
      assert c in s;
    }
    var start := |s| - |last|;
    assert s[start - 1] == c by {
      assert s[start - 1..][0] == c;
    }
    assert forall j :: |a| < j < |s| ==> s[j] == b[j - |a| - 1];
    assert forall j :: start <= j < |s| ==> s[j] == last[j - start] by {
      forall j | start <= j < |s| ensures s[j] == last[j - start] {
        assert s[j] == s[start - 1..][j - start + 1];
      }
    }
    assert start - 1 == |a|;
    assert last == s[|a| + 1..];
  }

  /** The last piece of `a + sep + b` is `b` when `b` does not contain the one-character separator. */
  lemma SplitLast(a: string, sep: string, b: string)
    requires |sep| == 1 && !Includes(b, sep)
    ensures Last(Split(a + sep + b, sep)) == b
  {
    var s := a + sep + b;
    SplitPiecesOmitSeparator(s, sep);
    SplitLastPiece(s, sep);
    SuffixAfterSeparator(a, sep, b, Last(Split(s, sep)));
  }
}
