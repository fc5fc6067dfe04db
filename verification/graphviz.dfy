/** The file name the Graphviz compiler gives each graph
    (seedemu/compiler/Graphviz.py): the graph's name with everything but
    letters, digits and spaces dropped, and trailing spaces removed. */
module Graphviz {

  /** `c.isalpha() or c.isdigit() or c == ' '`, over ASCII. */
  predicate Kept(c: char)
  {
    ('a' <= c <= 'z') || ('A' <= c <= 'Z') || ('0' <= c <= '9') || c == ' '
  }

  predicate AllKept(s: string)
  {
    forall i :: 0 <= i < |s| ==> Kept(s[i])
  }

  /** The list comprehension: the kept characters in order. */
  function Filter(s: string): (r: string)
    ensures AllKept(r)
    ensures |r| <= |s|
  {
    if |s| == 0 then "" else (if Kept(s[0]) then [s[0]] else "") + Filter(s[1..])
  }

  /** `rstrip()`; after filtering, space is the only white space left. */
  function RStrip(s: string): (r: string)
    ensures |r| <= |s| && r == s[..|r|]
    ensures |r| > 0 ==> r[|r| - 1] != ' '
    ensures forall i :: |r| <= i < |s| ==> s[i] == ' '
  {
    if |s| == 0 || s[|s| - 1] != ' ' then s else RStrip(s[..|s| - 1])
  }

  /** `__slugify`. */
  function Slugify(name: string): (r: string)
    ensures AllKept(r)
    ensures |r| > 0 ==> r[|r| - 1] != ' '
  {
    var f := Filter(name);
    var r := RStrip(f);
    assert forall i :: 0 <= i < |r| ==> r[i] == f[i];
    r
  }

  /** `a` is `b` with some characters deleted. */
  predicate Subsequence(a: string, b: string)
    decreases |b|
  {
    if |a| == 0 then true
    else if |b| == 0 then false
    else if a[0] == b[0] then Subsequence(a[1..], b[1..])
    else Subsequence(a, b[1..])
  }

  lemma {:induction false} FilterSubsequence(s: string)
    ensures Subsequence(Filter(s), s)
  {
    if |s| > 0 {
      FilterSubsequence(s[1..]);
      if Kept(s[0]) {
        assert Filter(s)[0] == s[0] && Filter(s)[1..] == Filter(s[1..]);
      } else {
        assert Filter(s) == Filter(s[1..]);
        SubsequenceSkip(Filter(s[1..]), s);
      }
    }
  }

  /** Putting a character in front of the longer string keeps a
      subsequence one. */
  lemma {:induction false} SubsequenceSkip(a: string, b: string)
    requires |b| > 0 && Subsequence(a, b[1..])
    ensures Subsequence(a, b)
    decreases |b|, 0
  {
    if |a| > 0 && a[0] == b[0] {
      SubsequenceDrop(a, b[1..]);
    }
  }

  /** Removing the head of a subsequence keeps it one. */
  lemma {:induction false} SubsequenceDrop(a: string, c: string)
    requires |a| > 0 && Subsequence(a, c)
    ensures Subsequence(a[1..], c)
    decreases |c|, 1
  {
    if a[0] == c[0] {
      SubsequenceSkip(a[1..], c);
    } else {
      SubsequenceDrop(a, c[1..]);
      SubsequenceSkip(a[1..], c);
    }
  }

  /** A prefix of a subsequence is a subsequence. */
  lemma {:induction false} PrefixSubsequence(a: string, b: string, n: nat)
    requires n <= |a| && Subsequence(a, b)
    ensures Subsequence(a[..n], b)
    decreases |b|
  {
    if n > 0 {
      if a[0] == b[0] {
        PrefixSubsequence(a[1..], b[1..], n - 1);
        assert a[..n][1..] == a[1..][..n - 1];
      } else {
        PrefixSubsequence(a, b[1..], n);
      }
    }
  }

  /** The slug keeps characters of the name, in order. */
  lemma SlugifySubsequence(name: string)
    ensures Subsequence(Slugify(name), name)
  {
    var f := Filter(name);
    FilterSubsequence(name);
    PrefixSubsequence(f, name, |RStrip(f)|);
  }

  /** Names already made of letters, digits and spaces, with no trailing
      space, are their own slug. */
  lemma {:induction false} SlugifyFixed(name: string)
    requires AllKept(name) && (|name| > 0 ==> name[|name| - 1] != ' ')
    ensures Slugify(name) == name
  {
    FilterKeeps(name);
  }

  lemma {:induction false} FilterKeeps(s: string)
    requires AllKept(s)
    ensures Filter(s) == s
  {
    if |s| > 0 {
      FilterKeeps(s[1..]);
    }
  }

  /** A name is its own slug exactly when it holds only letters, digits
      and spaces and does not end in a space. */
  lemma SlugifyFixedIff(name: string)
    ensures Slugify(name) == name <==> AllKept(name) && (|name| > 0 ==> name[|name| - 1] != ' ')
  {
    if AllKept(name) && (|name| > 0 ==> name[|name| - 1] != ' ') {
      SlugifyFixed(name);
    }
  }

  lemma SlugifyIdempotent(name: string)
    ensures Slugify(Slugify(name)) == Slugify(name)
  {
    SlugifyFixed(Slugify(name));
  }
}
