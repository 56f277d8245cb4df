/** The text that a description must contain to prove that its owner is a Discord user. */
module Tokens {
  predicate Contains(s: string, w: string) {
    w <= s || (s != "" && Contains(s[1..], w))
  }

  lemma SplitLater(s: string, a: string, w: string, b: string)
    requires s == a + w + b && !(w <= s)
    ensures a != "" && s != "" && s[1..] == a[1..] + w + b
  {
    assert a == "" ==> a + w + b == w + b;
  }

  /** `w` is contained in `s` exactly when `s` is `w` with some text before and after. */
  lemma {:induction false} ContainsIff(s: string, w: string)
    ensures Contains(s, w) <==> exists a, b :: s == a + w + b
    decreases |s|
  {
    if w <= s {
      assert s == "" + w + s[|w|..];
    } else {
      if s != "" {
        ContainsIff(s[1..], w);
        if a, b :| s[1..] == a + w + b {
          assert s == ([s[0]] + a) + w + b;
        }
      }
      if a, b :| s == a + w + b {
        SplitLater(s, a, w, b);
      }
    }
  }

  const FRONT := "LeetBot->["
  const BACK := "]->Verify"

  function Token(username: string): string {
    "LeetBot->[" + username + "]->Verify"
  }

  lemma TokenParts(name: string)
    ensures Token(name) == FRONT + (name + BACK)
  {
  }

  /** The description is verified exactly when it is the token with some text before and after. */
  lemma VerifiedIff(text: string, username: string)
    ensures Contains(text, Token(username)) <==> exists a, b :: text == a + ("LeetBot->[" + username + "]->Verify") + b
  {
    ContainsIff(text, Token(username));
  }

  // ----- tokens inside tokens -----

  lemma BackIsMarked(j: nat)
    requires 0 < j < |BACK|
    ensures BACK[j] != ']' && BACK[0] == ']'
  {
  }

  /** The `]` marks the end: a shorter name is followed by all of the end. */
  lemma NameThenEnd(b: string, v: string)
    requires b + BACK <= v + BACK
    ensures b == v || b + BACK <= v
  {
    var n, m, e := |b|, |v|, |BACK|;
    var s, t := b + BACK, v + BACK;
    assert forall i :: 0 <= i < |s| ==> t[i] == s[i];
    assert s[..n] == b && t[..m] == v;
    assert n < m < n + e ==> s[m] == BACK[m - n] && t[m] == BACK[0];
    forall j: nat | 0 < j < e
      ensures BACK[j] != BACK[0]
    {
      BackIsMarked(j);
    }
    assert !(n < m < n + e);
    assert n + e <= m ==> t[..n + e] == v[..n + e];
  }

  lemma FrontIsMarked()
    ensures FRONT[0] == 'L' && FRONT[9] == '[' && |FRONT| == 10 && |BACK| == 9
    ensures forall j :: 0 < j < |FRONT| ==> FRONT[j] != 'L'
    ensures forall j :: 0 <= j < |BACK| ==> BACK[j] != 'L' && BACK[j] != '['
  {
  }

  lemma TokenAt(a: string, k: nat)
    requires k < |Token(a)|
    ensures |Token(a)| == |FRONT| + |a| + |BACK|
    ensures Token(a)[k] == if k < |FRONT| then FRONT[k]
                           else if k < |FRONT| + |a| then a[k - |FRONT|]
                           else BACK[k - |FRONT| - |a|]
  {
    TokenParts(a);
  }

  /** Where the front of a token can stand inside a token: at its own front, or inside the name. */
  lemma FrontOccurs(a: string, i: nat)
    requires i <= |Token(a)| && FRONT <= Token(a)[i..]
    ensures i == 0 || (|FRONT| <= i <= |a| && a[i - |FRONT|..i] == FRONT)
  {
    var t, n := Token(a), |FRONT|;
    FrontIsMarked();
    assert forall k :: 0 <= k < n ==> t[i + k] == t[i..][k] == FRONT[k];
    TokenAt(a, i);
    TokenAt(a, i + 9);
    assert i == 0 || n <= i;
    if i > 0 {
      assert i + 9 < n + |a|;
      forall k | 0 <= k < n
        ensures a[i - n + k] == FRONT[k]
      {
        TokenAt(a, i + k);
      }
    }
  }

  /** The ways in which one name's token can stand inside another's. */
  ghost predicate BuiltFor(a: string, b: string) {
    || a == b
    || b + "]->Verify" <= a
    || (exists u :: a == u + ("LeetBot->[" + b))
    || (exists p, q :: a == p + ("LeetBot->[" + b + "]->Verify") + q)
  }

  lemma TokenFound(a: string, b: string, x: string, y: string)
    requires Token(a) == x + Token(b) + y
    ensures BuiltFor(a, b)
  {
    TokenParts(a);
    TokenParts(b);
    var i, n := |x|, |FRONT|;
    assert Token(a)[i..] == FRONT + ((b + BACK) + y);
    FrontOccurs(a, i);
    var v := if i == 0 then a else a[i..];
    assert v + BACK == Token(a)[i..][n..] == (b + BACK) + y;
    NameThenEnd(b, v);
    if i > 0 {
      FoundInName(a, b, a[..i - n], v);
    }
  }

  lemma FoundInName(a: string, b: string, u: string, v: string)
    requires a == u + FRONT + v && (b == v || b + BACK <= v)
    ensures BuiltFor(a, b)
  {
    if b == v {
      assert a == u + ("LeetBot->[" + b);
    } else {
      var q := v[|b + BACK|..];
      assert v == (b + BACK) + q;
      assert a == u + ("LeetBot->[" + b + "]->Verify") + q;
    }
  }

  lemma CarriesAtFront(a: string, b: string, v: string)
    requires a == (b + BACK) + v
    ensures Token(a) == "" + Token(b) + (v + BACK)
  {
    TokenParts(a);
    TokenParts(b);
  }

  lemma CarriesAtEnd(a: string, b: string, u: string)
    requires a == u + (FRONT + b)
    ensures Token(a) == (FRONT + u) + Token(b) + ""
  {
    TokenParts(a);
    TokenParts(b);
  }

  lemma CarriesWithin(a: string, b: string, p: string, q: string)
    requires a == p + Token(b) + q
    ensures Token(a) == (FRONT + p) + Token(b) + (q + BACK)
  {
    TokenParts(a);
  }

  lemma BuiltForContains(a: string, b: string)
    requires BuiltFor(a, b)
    ensures exists x, y :: Token(a) == x + Token(b) + y
  {
    if a == b {
      assert Token(a) == "" + Token(b) + "";
    } else if b + "]->Verify" <= a {
      var v := a[|b| + |BACK|..];
      assert a == (b + BACK) + v;
      CarriesAtFront(a, b, v);
    } else if u :| a == u + ("LeetBot->[" + b) {
      CarriesAtEnd(a, b, u);
    } else {
      var p, q :| a == p + ("LeetBot->[" + b + "]->Verify") + q;
      CarriesWithin(a, b, p, q);
    }
  }

  /** One user's token verifies another name exactly when the first name is built for it: it begins with
      the other name and the end of the token, ends with the front of the token and the other name, or
      contains the whole token. */
  lemma TokenInTokenIff(a: string, b: string)
    ensures Contains("LeetBot->[" + a + "]->Verify", "LeetBot->[" + b + "]->Verify") <==>
            || a == b
            || b + "]->Verify" <= a
            || (exists u :: a == u + ("LeetBot->[" + b))
            || (exists p, q :: a == p + ("LeetBot->[" + b + "]->Verify") + q)
  {
    ContainsIff(Token(a), Token(b));
    if x, y :| Token(a) == x + Token(b) + y {
      TokenFound(a, b, x, y);
    }
    if BuiltFor(a, b) {
      BuiltForContains(a, b);
    }
  }

  lemma BracketsNeeded(a: string, b: string)
    requires BuiltFor(a, b) && a != b
    ensures '[' in a || ']' in a
  {
    if b + "]->Verify" <= a {
      assert a[|b|] == ']';
    } else if u :| a == u + ("LeetBot->[" + b) {
      assert a[|u| + 9] == '[';
    } else {
      var p, q :| a == p + ("LeetBot->[" + b + "]->Verify") + q;
      assert a[|p| + 9] == '[';
    }
  }

  /** The token of a name without brackets verifies no other name. */
  lemma PlainTokenVerifiesOwner(a: string, b: string)
    requires '[' !in a && ']' !in a
    ensures Contains("LeetBot->[" + a + "]->Verify", "LeetBot->[" + b + "]->Verify") <==> a == b
  {
    TokenInTokenIff(a, b);
    if BuiltFor(a, b) && a != b {
      BracketsNeeded(a, b);
    }
  }

  /** A name with brackets can carry another user's token. */
  lemma BracketedTokenVerifiesOther(b: string)
    ensures Contains("LeetBot->[" + (b + "]->Verify") + "]->Verify", "LeetBot->[" + b + "]->Verify")
  {
    TokenInTokenIff(b + "]->Verify", b);
  }
}
