/** Text primitives used by the path rewriter: an Option type, substring
    occurrence, and Python's `str.replace`. */
module Text {

  datatype Option<+T> = None | Some(value: T)

  /** True when `pat` occurs in `s` starting at index `i`. */
  predicate OccursAt(s: string, pat: string, i: int)
  {
    0 <= i && i + |pat| <= |s| && s[i..i + |pat|] == pat
  }

  /** Python's `s.replace(pat, rep)` for a non-empty `pat`: the string is
      scanned from the left, every occurrence of `pat` found is replaced by
      `rep`, and the scan resumes just after it, so occurrences never overlap. */
  function Replace(s: string, pat: string, rep: string): string
    requires |pat| > 0
    decreases |s|
  {
    if |s| < |pat| then s
    else if s[..|pat|] == pat then rep + Replace(s[|pat|..], pat, rep)
    else [s[0]] + Replace(s[1..], pat, rep)
  }

  /** Occurrences in a suffix are occurrences in the whole string, shifted. */
  lemma OccursInSuffix(s: string, pat: string, k: nat, i: nat)
    requires k <= |s|
    ensures OccursAt(s[k..], pat, i) <==> OccursAt(s, pat, k + i)
  {
    if k + i + |pat| <= |s| {
      assert s[k..][i..i + |pat|] == s[k + i..k + i + |pat|];
    }
  }

  /** A string in which `pat` does not occur is returned unchanged. */
  lemma {:induction false} ReplaceAbsent(s: string, pat: string, rep: string)
    requires |pat| > 0
    requires forall i :: !OccursAt(s, pat, i)
    ensures Replace(s, pat, rep) == s
    decreases |s|
  {
    if |s| >= |pat| {
      assert !OccursAt(s, pat, 0);
      assert s[0..|pat|] == s[..|pat|];
      forall i | true ensures !OccursAt(s[1..], pat, i) {
        if i >= 0 { OccursInSuffix(s, pat, 1, i); }
      }
      ReplaceAbsent(s[1..], pat, rep);
      assert [s[0]] + s[1..] == s;
    }
  }

  /** Where `pat` does not start, the scan copies one character and moves on. */
  lemma ReplaceSkip(s: string, pat: string, rep: string)
    requires |pat| > 0 && |s| > 0
    requires !OccursAt(s, pat, 0)
    ensures Replace(s, pat, rep) == [s[0]] + Replace(s[1..], pat, rep)
  {
    if |s| >= |pat| { assert s[0..|pat|] == s[..|pat|]; }
  }

  /** Where `pat` starts, the scan emits `rep` and resumes after the occurrence. */
  lemma ReplaceHit(pat: string, c: string, rep: string)
    requires |pat| > 0
    ensures Replace(pat + c, pat, rep) == rep + Replace(c, pat, rep)
  {
    assert (pat + c)[..|pat|] == pat;
    assert (pat + c)[|pat|..] == c;
  }

  /** A prefix in which no occurrence of `pat` starts is copied verbatim. */
  lemma {:induction false} ReplaceKeepsPrefix(a: string, b: string, pat: string, rep: string)
    requires |pat| > 0
    requires forall i :: 0 <= i < |a| ==> !OccursAt(a + b, pat, i)
    ensures Replace(a + b, pat, rep) == a + Replace(b, pat, rep)
    decreases |a|
  {
    if a != [] {
      var s := a + b;
      var a' := a[1..];
      assert s[1..] == a' + b;
      forall i | 0 <= i < |a'| ensures !OccursAt(a' + b, pat, i) {
        OccursInSuffix(s, pat, 1, i);
      }
      ReplaceKeepsPrefix(a', b, pat, rep);
      ReplaceSkip(s, pat, rep);
      assert [a[0]] + a' == a;
    } else {
      assert a + b == b;
    }
  }

  /** The leftmost occurrence of `pat` is the first one replaced: the text
      `a` before it is kept verbatim and the scan resumes after it. */
  lemma ReplaceLeftmost(s: string, a: string, c: string, pat: string, rep: string)
    requires |pat| > 0 && s == a + pat + c
    requires forall i :: 0 <= i < |a| ==> !OccursAt(s, pat, i)
    ensures Replace(s, pat, rep) == a + rep + Replace(c, pat, rep)
  {
    assert s == a + (pat + c);
    ReplaceKeepsPrefix(a, pat + c, pat, rep);
    ReplaceHit(pat, c, rep);
  }

  /** A string is its prefix, an occurrence, and the rest. */
  lemma SplitAtOccurrence(s: string, pat: string, p: nat)
    requires OccursAt(s, pat, p)
    ensures s == s[..p] + pat + s[p + |pat|..]
  {
    assert s[p..p + |pat|] == pat;
  }

  /** The same, for the first occurrence `p` of `pat` in `s`. */
  lemma ReplaceFirst(s: string, pat: string, rep: string, p: nat)
    requires |pat| > 0
    requires OccursAt(s, pat, p)
    requires forall i :: 0 <= i < p ==> !OccursAt(s, pat, i)
    ensures Replace(s, pat, rep) == s[..p] + rep + Replace(s[p + |pat|..], pat, rep)
  {
    SplitAtOccurrence(s, pat, p);
    ReplaceLeftmost(s, s[..p], s[p + |pat|..], pat, rep);
  }

  /** When `pat` occurs exactly once, at `p`, the text before and after that
      occurrence is preserved verbatim. */
  lemma ReplaceOnce(s: string, pat: string, rep: string, p: nat)
    requires |pat| > 0
    requires OccursAt(s, pat, p)
    requires forall i :: OccursAt(s, pat, i) ==> i == p
    ensures Replace(s, pat, rep) == s[..p] + rep + s[p + |pat|..]
  {
    var c := s[p + |pat|..];
    ReplaceFirst(s, pat, rep, p);
    forall i | true ensures !OccursAt(c, pat, i) {
      if i >= 0 { OccursInSuffix(s, pat, p + |pat|, i); }
    }
    ReplaceAbsent(c, pat, rep);
  }

  /** Replacing a string by itself changes nothing. */
  lemma {:induction false} ReplaceBySelf(s: string, pat: string)
    requires |pat| > 0
    ensures Replace(s, pat, pat) == s
    decreases |s|
  {
    if |s| >= |pat| {
      if s[..|pat|] == pat {
        ReplaceBySelf(s[|pat|..], pat);
        assert s[..|pat|] + s[|pat|..] == s;
      } else {
        ReplaceBySelf(s[1..], pat);
        assert [s[0]] + s[1..] == s;
      }
    }
  }

  /** Replacing a single character by a single character maps the string
      position by position. */
  lemma {:induction false} ReplaceChar(s: string, a: char, b: char)
    ensures |Replace(s, [a], [b])| == |s|
    ensures forall i :: 0 <= i < |s| ==>
      Replace(s, [a], [b])[i] == (if s[i] == a then b else s[i])
    decreases |s|
  {
    if |s| > 0 {
      ReplaceChar(s[1..], a, b);
      var r := Replace(s, [a], [b]);
      var t := Replace(s[1..], [a], [b]);
      if s[..1] == [a] {
        assert r == [b] + t;
      } else {
        assert r == [s[0]] + t;
      }
      forall i | 0 <= i < |s| ensures r[i] == (if s[i] == a then b else s[i]) {
        if i > 0 { assert r[i] == t[i - 1] && s[1..][i - 1] == s[i]; }
      }
    }
  }
}
