/** The small part of Python's `str` that the profile-ID cleaner relies on:
    the membership test `pat in s`, the search `s.find(pat)`, the splitter
    `s.split(sep)` and its inverse `sep.join(pieces)`. Strings are sequences
    of characters; no normalisation or case folding takes place. */
module PyStrings {

  datatype Option<+T> = None | Some(value: T)

  /** `pat` occurs in `s` starting at index `i`. */
  ghost predicate OccursAt(s: string, pat: string, i: int) {
    0 <= i && i + |pat| <= |s| && s[i..i + |pat|] == pat
  }

  /** `pat` is a substring of `s` (the meaning of Python's `pat in s`). */
  ghost predicate Contains(s: string, pat: string) {
    exists i :: OccursAt(s, pat, i)
  }

  /** `i` is the leftmost occurrence of `pat` in `s`. */
  ghost predicate FirstOccurrence(s: string, pat: string, i: int) {
    OccursAt(s, pat, i) && forall k :: 0 <= k < i ==> !OccursAt(s, pat, k)
  }

  /** An occurrence in `s` one place to the right is an occurrence in `s[1..]`. */
  lemma OccursShift(s: string, pat: string, k: nat)
    requires |s| > 0
    ensures OccursAt(s, pat, k + 1) <==> OccursAt(s[1..], pat, k)
  {
    if k + 1 + |pat| <= |s| {
      assert s[1..][k..k + |pat|] == s[k + 1..k + 1 + |pat|];
    }
  }

  /** Inside a prefix `s[..n]`, the occurrences that fit are exactly those of `s`. */
  lemma OccursInPrefix(s: string, pat: string, n: nat, k: int)
    requires n <= |s| && 0 <= k && k + |pat| <= n
    ensures OccursAt(s[..n], pat, k) <==> OccursAt(s, pat, k)
  {
    assert s[..n][k..k + |pat|] == s[k..k + |pat|];
  }

  /** A one-character pattern occurs at `k` exactly when `s[k]` is that character. */
  lemma OccursAtChar(s: string, c: char, k: int)
    requires 0 <= k < |s|
    ensures OccursAt(s, [c], k) <==> s[k] == c
  {
    assert |s[k..k + 1]| == 1 && s[k..k + 1][0] == s[k];
  }

  /** A one-character pattern is contained exactly when the character is an element. */
  lemma {:induction false} ContainsChar(s: string, c: char)
    ensures Contains(s, [c]) <==> c in s
  {
    if c in s {
      var k :| 0 <= k < |s| && s[k] == c;
      OccursAtChar(s, c, k);
    }
    if Contains(s, [c]) {
      var k :| OccursAt(s, [c], k);
      OccursAtChar(s, c, k);
    }
  }

  /** A string in which the first character of `pat` never appears does not contain `pat`. */
  lemma {:induction false} AbsentFirstChar(s: string, pat: string)
    requires |pat| > 0 && pat[0] !in s
    ensures !Contains(s, pat)
  {
    forall k ensures !OccursAt(s, pat, k) {
      if 0 <= k && k + |pat| <= |s| {
        assert s[k..k + |pat|][0] == s[k];
      }
    }
  }

  /** A prefix of a string that does not contain `pat` does not contain it either. */
  lemma {:induction false} PrefixKeepsAbsence(s: string, pat: string, n: nat)
    requires n <= |s| && !Contains(s, pat)
    ensures !Contains(s[..n], pat)
  {
    forall k ensures !OccursAt(s[..n], pat, k) {
      if 0 <= k && k + |pat| <= n {
        OccursInPrefix(s, pat, n, k);
      }
    }
  }

  /** The text before the first occurrence of a non-empty `pat` does not contain it. */
  lemma {:induction false} PrefixBeforeFirst(s: string, pat: string, i: nat)
    requires |pat| > 0 && FirstOccurrence(s, pat, i)
    ensures !Contains(s[..i], pat)
  {
    forall k ensures !OccursAt(s[..i], pat, k) {
      if 0 <= k && k + |pat| <= i {
        OccursInPrefix(s, pat, i, k);
      }
    }
  }

  /** The leftmost occurrence is unique. */
  lemma FirstOccurrenceUnique(s: string, pat: string, i: int, j: int)
    requires FirstOccurrence(s, pat, i) && FirstOccurrence(s, pat, j)
    ensures i == j
  {
  }

  /** Python's `s.find(pat)`: the index of the leftmost occurrence of `pat`,
      with `None` standing for Python's `-1`. */
  function Find(s: string, pat: string): (r: Option<nat>)
    ensures r.Some? ==> FirstOccurrence(s, pat, r.value)
    ensures r.None? <==> !Contains(s, pat)
    decreases |s|
  {
    if |pat| <= |s| && s[..|pat|] == pat then
      Some(0)
    else if |s| == 0 then
      None
    else
      match Find(s[1..], pat)
      case None =>
        assert forall k :: !OccursAt(s, pat, k) by {
          forall k ensures !OccursAt(s, pat, k) {
            if k > 0 {
              OccursShift(s, pat, k - 1);
            }
          }
        }
        None
      case Some(k) =>
        OccursShift(s, pat, k);
        assert forall j :: 0 <= j < k + 1 ==> !OccursAt(s, pat, j) by {
          forall j | 0 < j < k + 1 ensures !OccursAt(s, pat, j) {
            OccursShift(s, pat, j - 1);
          }
        }
        Some(k + 1)
  }

  /** Python's `pat in s`. */
  function In(pat: string, s: string): (b: bool)
    ensures b <==> Contains(s, pat)
  {
    Find(s, pat).Some?
  }

  /** The index at which `s.split(pat)[0]` ends: the leftmost occurrence, or the length. */
  function FindOrEnd(s: string, pat: string): (n: nat)
    ensures n <= |s|
    ensures n == |s| || OccursAt(s, pat, n)
    ensures forall k :: 0 <= k < n ==> !OccursAt(s, pat, k)
  {
    match Find(s, pat)
    case Some(i) => i
    case None => |s|
  }

  /** Python's `sep.join(pieces)`. */
  function Join(pieces: seq<string>, sep: string): (s: string)
    decreases |pieces|
  {
    if |pieces| == 0 then ""
    else if |pieces| == 1 then pieces[0]
    else pieces[0] + sep + Join(pieces[1..], sep)
  }

  /** Python's `s.split(sep)` for a non-empty separator (Python rejects an empty
      one with ValueError): the pieces between successive non-overlapping
      occurrences of `sep`, scanning left to right. */
  function Split(s: string, sep: string): (pieces: seq<string>)
    requires |sep| > 0
    ensures |pieces| >= 1
    ensures |pieces| >= 2 <==> Contains(s, sep)
    ensures forall k :: 0 <= k < |pieces| ==> !Contains(pieces[k], sep)
    ensures Join(pieces, sep) == s
    decreases |s|
  {
    match Find(s, sep)
    case None => [s]
    case Some(i) =>
      PrefixBeforeFirst(s, sep, i);
      var rest := Split(s[i + |sep|..], sep);
      assert ([s[..i]] + rest)[1..] == rest;
      assert s[..i] + sep + s[i + |sep|..] == s by {
        assert s[i..i + |sep|] == sep;
        assert s == s[..i] + s[i..i + |sep|] + s[i + |sep|..];
      }
      [s[..i]] + rest
  }

  /** `s.split(sep)[0]` is the text before the leftmost occurrence, or all of `s`. */
  lemma SplitHead(s: string, sep: string)
    requires |sep| > 0
    ensures Split(s, sep)[0] == s[..FindOrEnd(s, sep)]
  {
  }

  /** `s.split(sep)[1]`, when `sep` occurs at `i` first, is the head of the split of
      what follows that occurrence. */
  lemma SplitSecond(s: string, sep: string, i: nat)
    requires |sep| > 0 && FirstOccurrence(s, sep, i)
    ensures |Split(s, sep)| >= 2
    ensures Split(s, sep)[1] == Split(s[i + |sep|..], sep)[0]
  {
    var r := Find(s, sep);
    FirstOccurrenceUnique(s, sep, r.value, i);
  }
}
