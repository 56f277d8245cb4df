/** Searching and splitting strings. */
module Strings {
  /** Position of the first `c` in `s`, or `|s|` when there is none. */
  function Find(c: char, s: string): (i: nat)
    ensures i <= |s| && c !in s[..i] && (i < |s| ==> s[i] == c)
  {
    if s == "" then 0 else if s[0] == c then 0 else 1 + Find(c, s[1..])
  }

  lemma FindAfter(c: char, w: string, s: string)
    requires c !in w
    ensures c in w + s <==> c in s
    ensures Find(c, w + s) == |w| + Find(c, s)
  {
    var t := w + s;
    if c in s {
      var k := Find(c, s);
      assert t[|w| + k] == c;
      assert t[..|w| + k] == w + s[..k];
      FindIsFirst(c, t, |w| + k);
    } else {
      assert c !in t;
    }
  }

  lemma {:induction false} FindIsFirst(c: char, s: string, k: nat)
    requires k < |s| && s[k] == c && c !in s[..k]
    ensures Find(c, s) == k
    decreases k
  {
    if k > 0 {
      assert s[..k][0] == s[0] && s[1..][..k - 1] == s[..k][1..];
      FindIsFirst(c, s[1..], k - 1);
    }
  }

  lemma DropPast(w: string, s: string, k: nat)
    requires k <= |s|
    ensures (w + s)[|w| + k..] == s[k..]
  {
  }

  lemma DropTwice(s: string, i: nat, j: nat)
    requires i + j <= |s|
    ensures s[i..][j..] == s[i + j..]
  {
  }

  lemma TailOfConcat(w: string, s: string)
    requires w != ""
    ensures w + s != "" && (w + s)[0] == w[0] && (w + s)[1..] == w[1..] + s
  {
  }

  lemma PrependHead(w: string, c: char, s: string)
    requires w != "" && w[0] == c
    ensures [c] + (w[1..] + s) == w + s
  {
  }

  lemma Associate(a: string, b: string, c: string)
    ensures a + (b + c) == (a + b) + c
  {
  }

  lemma SplitAt(text: string, i: nat, j: nat)
    requires i <= j <= |text|
    ensures text[i..] == text[i..j] + text[j..]
  {
  }

  predicate EndsWith(a: string, w: string) {
    |w| <= |a| && a[|a| - |w|..] == w
  }

  lemma EndsWithTail(y: string, w: string)
    requires y != "" && EndsWith(y[1..], w)
    ensures EndsWith(y, w)
  {
    var z := y[1..];
    assert y[|y| - |w|..] == z[|z| - |w|..];
  }

  lemma SameHead(w: string, a: string, b: string)
    requires a != b
    ensures w + a != w + b
  {
    DropPast(w, a, 0);
    DropPast(w, b, 0);
  }

  lemma JoinPrefix(s: string, t: string, w: string)
    requires t <= s && w <= s[|t|..]
    ensures t + w <= s
  {
  }
}
