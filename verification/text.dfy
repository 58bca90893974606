/** String searching as JavaScript performs it: `indexOf`, `split` on a literal
    separator, and a global `replace` of a literal pattern by the empty string. */
module Text {
  import opened Wrappers

  /** `pat` occurs in `s` starting at index `i`. */
  ghost predicate OccursAt(s: string, pat: string, i: int) {
    0 <= i && i + |pat| <= |s| && s[i..i + |pat|] == pat
  }

  ghost predicate Contains(s: string, pat: string) {
    exists i :: OccursAt(s, pat, i)
  }

  lemma SliceShift(s: string, j: int, n: nat)
    requires 1 <= j && j + n <= |s|
    ensures s[j..j + n] == s[1..][j - 1..j - 1 + n]
  {
    var a := s[j..j + n];
    var b := s[1..][j - 1..j - 1 + n];
    assert forall k :: 0 <= k < n ==> a[k] == b[k];
  }

  lemma OccursShift(s: string, pat: string)
    requires |s| > 0
    ensures forall j :: 1 <= j ==> (OccursAt(s, pat, j) <==> OccursAt(s[1..], pat, j - 1))
  {
    forall j | 1 <= j
      ensures OccursAt(s, pat, j) <==> OccursAt(s[1..], pat, j - 1)
    {
      if j + |pat| <= |s| {
        SliceShift(s, j, |pat|);
      }
    }
  }

  /** `String.prototype.indexOf`: the first occurrence of `pat` in `s`, None for -1. */
  function Find(s: string, pat: string): (r: Option<nat>)
    requires |pat| > 0
    ensures r.Some? ==> OccursAt(s, pat, r.value)
    ensures r.Some? ==> forall j :: 0 <= j < r.value ==> !OccursAt(s, pat, j)
    ensures r.None? <==> !Contains(s, pat)
    decreases |s|
  {
    if |s| < |pat| then None
    else if s[..|pat|] == pat then
      assert OccursAt(s, pat, 0);
      Some(0)
    else
      OccursShift(s, pat);
      match Find(s[1..], pat)
      case None => None
      case Some(i) => Some(i + 1)
  }

  /** A prefix of `s` that ends before the first occurrence of `pat` contains no `pat`. */
  lemma PrefixFree(s: string, pat: string, i: nat)
    requires |pat| > 0 && i <= |s|
    requires forall j :: 0 <= j < i ==> !OccursAt(s, pat, j)
    ensures !Contains(s[..i], pat)
  {
    forall j | 0 <= j && j + |pat| <= i
      ensures !OccursAt(s[..i], pat, j)
    {
      assert s[..i][j..j + |pat|] == s[j..j + |pat|];
      assert !OccursAt(s, pat, j);
    }
  }

  /** The parts joined back with `sep` in between (`Array.prototype.join`). */
  function Join(parts: seq<string>, sep: string): string
  {
    if |parts| == 0 then ""
    else if |parts| == 1 then parts[0]
    else parts[0] + sep + Join(parts[1..], sep)
  }

  lemma JoinCons(a: string, tail: seq<string>, sep: string)
    requires |tail| >= 1
    ensures Join([a] + tail, sep) == a + sep + Join(tail, sep)
  {
    assert ([a] + tail)[1..] == tail;
  }

  /** `String.prototype.split` on a non-empty literal separator: cuts `s` at every
      occurrence of `sep`, found left to right without overlap. */
  function Split(s: string, sep: string): (parts: seq<string>)
    requires |sep| > 0
    ensures |parts| >= 1
    ensures Join(parts, sep) == s
    ensures forall k :: 0 <= k < |parts| ==> !Contains(parts[k], sep)
    ensures Find(s, sep).None? ==> parts == [s]
    ensures Find(s, sep).Some? ==> |parts| >= 2
    decreases |s|
  {
    match Find(s, sep)
    case None => [s]
    case Some(i) =>
      var rest := s[i + |sep|..];
      var tail := Split(rest, sep);
      PrefixFree(s, sep, i);
      JoinCons(s[..i], tail, sep);
      assert s == s[..i] + sep + rest by {
        assert s[i..i + |sep|] == sep;
      }
      var parts := [s[..i]] + tail;
      assert forall k :: 1 <= k < |parts| ==> parts[k] == tail[k - 1];
      parts
  }

  /** Every cut of the split is the leftmost occurrence in what remains: part `k`
      (not the last) ends where the separator first occurs in the rest of the string. */
  lemma {:induction false} SplitCutsLeftmost(s: string, sep: string, k: nat)
    requires |sep| > 0 && k < |Split(s, sep)| - 1
    ensures Find(Join(Split(s, sep)[k..], sep), sep) == Some(|Split(s, sep)[k]|)
    decreases |s|
  {
    var i := Find(s, sep).value;
    var rest := s[i + |sep|..];
    var tail := Split(rest, sep);
    var parts := Split(s, sep);
    assert parts == [s[..i]] + tail;
    if k == 0 {
      assert parts[0..] == parts;
    } else {
      SplitCutsLeftmost(rest, sep, k - 1);
      assert parts[k..] == tail[k - 1..];
    }
  }

  /** The split has a single part exactly when the separator does not occur. */
  lemma SplitSingle(s: string, sep: string)
    requires |sep| > 0
    ensures !Contains(s, sep) <==> Split(s, sep) == [s]
    ensures Contains(s, sep) <==> |Split(s, sep)| >= 2
  {
  }

  /** `s.replace(new RegExp(pat, 'g'), '')` for a pattern with no special characters:
      every occurrence, found left to right without overlap, is deleted. */
  function RemoveAll(s: string, pat: string): (r: string)
    requires |pat| > 0
    ensures |r| <= |s|
    ensures !Contains(s, pat) ==> r == s
    ensures Contains(s, pat) ==> |r| + |pat| <= |s|
    decreases |s|
  {
    match Find(s, pat)
    case None => s
    case Some(i) => s[..i] + RemoveAll(s[i + |pat|..], pat)
  }

  /** Removing every occurrence is the same as splitting on it and joining with nothing. */
  lemma {:induction false} RemoveAllIsSplitJoin(s: string, pat: string)
    requires |pat| > 0
    ensures RemoveAll(s, pat) == Join(Split(s, pat), "")
    decreases |s|
  {
    match Find(s, pat)
    case None =>
    case Some(i) =>
      var rest := s[i + |pat|..];
      RemoveAllIsSplitJoin(rest, pat);
      var tail := Split(rest, pat);
      assert Split(s, pat) == [s[..i]] + tail;
      JoinCons(s[..i], tail, "");
  }

  /** A string shorter than the pattern cannot contain it. */
  lemma ShortFree(s: string, pat: string)
    requires |s| < |pat|
    ensures !Contains(s, pat)
  {
  }

  lemma SliceLeft(a: string, b: string, i: nat, j: nat)
    requires i <= j <= |a|
    ensures (a + b)[i..j] == a[i..j]
  {
  }

  lemma SliceRight(a: string, b: string, i: nat, j: nat)
    requires |a| <= i <= j <= |a| + |b|
    ensures (a + b)[i..j] == b[i - |a|..j - |a|]
  {
  }

  /** Two pattern-free strings glued where at least one of the two touching
      characters cannot occur in the pattern give a pattern-free string. */
  lemma ConcatFree(a: string, b: string, pat: string)
    requires !Contains(a, pat) && !Contains(b, pat)
    requires (|a| > 0 && a[|a| - 1] !in pat) || (|b| > 0 && b[0] !in pat)
    ensures !Contains(a + b, pat)
  {
    var s := a + b;
    forall i | 0 <= i && i + |pat| <= |s|
      ensures !OccursAt(s, pat, i)
    {
      var w := s[i..i + |pat|];
      if i + |pat| <= |a| {
        SliceLeft(a, b, i, i + |pat|);
        assert !OccursAt(a, pat, i);
      } else if i >= |a| {
        SliceRight(a, b, i, i + |pat|);
        assert !OccursAt(b, pat, i - |a|);
      } else if |a| > 0 && a[|a| - 1] !in pat {
        assert w[|a| - 1 - i] == a[|a| - 1];
      } else {
        assert w[|a| - i] == b[0];
      }
    }
  }

  /** A string `p + sep + q` where neither side holds `sep` and `p` ends in a
      character foreign to `sep` splits into exactly `p` and `q`. */
  lemma SplitAround(p: string, sep: string, q: string)
    requires |sep| > 0
    requires !Contains(p, sep) && !Contains(q, sep)
    requires |p| > 0 && p[|p| - 1] !in sep
    ensures Split(p + sep + q, sep) == [p, q]
  {
    var s := p + sep + q;
    assert s[|p|..|p| + |sep|] == sep;
    assert OccursAt(s, sep, |p|);
    forall j | 0 <= j < |p|
      ensures !OccursAt(s, sep, j)
    {
      if j + |sep| <= |s| {
        var w := s[j..j + |sep|];
        if j + |sep| <= |p| {
          assert w == p[j..j + |sep|];
          assert !OccursAt(p, sep, j);
        } else {
          assert w[|p| - 1 - j] == p[|p| - 1];
        }
      }
    }
    assert Find(s, sep) == Some(|p|);
    assert s[|p| + |sep|..] == q;
  }
}
