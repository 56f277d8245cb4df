/** Leftmost, non-overlapping replacement over unbounded strings: the meaning of
    `std::regex_replace` for the few expressions the bot uses. */
module Replace {
  import opened Strings

  /** `\w` for ASCII text. */
  predicate IsWordChar(c: char) {
    '0' <= c <= '9' || 'a' <= c <= 'z' || 'A' <= c <= 'Z' || c == '_'
  }

  datatype Pattern =
    | Literal(text: string)
    | AnyTag     // <[^>]*>
    | BareFence  // ```(?!\w)

  /** Length of the match of `p` that starts at the front of `s`; 0 when there is none. */
  function MatchLen(p: Pattern, s: string): (n: nat)
    ensures n <= |s|
  {
    match p
    case Literal(text) => if text <= s then |text| else 0
    case AnyTag => if s != "" && s[0] == '<' && '>' in s then Find('>', s) + 1 else 0
    case BareFence => if "```" <= s && (|s| == 3 || !IsWordChar(s[3])) then 3 else 0
  }

  function ReplaceAll(p: Pattern, to: string, s: string): string
    decreases |s|
  {
    if s == "" then ""
    else
      var n := MatchLen(p, s);
      if n > 0 then to + ReplaceAll(p, to, s[n..]) else [s[0]] + ReplaceAll(p, to, s[1..])
  }

  /** `p` matches at none of the first `k` positions of `s`. */
  ghost predicate NoMatchBefore(p: Pattern, s: string, k: nat)
    requires k <= |s|
  {
    forall i :: 0 <= i < k ==> MatchLen(p, s[i..]) == 0
  }

  lemma ReplaceMiss(p: Pattern, to: string, s: string)
    requires s != "" && MatchLen(p, s) == 0
    ensures ReplaceAll(p, to, s) == [s[0]] + ReplaceAll(p, to, s[1..])
  {
  }

  lemma NoMatchTail(p: Pattern, s: string, k: nat)
    requires 0 < k <= |s| && NoMatchBefore(p, s, k)
    ensures MatchLen(p, s) == 0 && NoMatchBefore(p, s[1..], k - 1)
  {
    assert s[0..] == s;
    forall i | 0 <= i < k - 1
      ensures MatchLen(p, s[1..][i..]) == 0
    {
      assert s[1..][i..] == s[i + 1..];
    }
  }

  /** The search step: everything before the leftmost match is copied, the match is replaced, and
      scanning resumes right after it. */
  lemma {:induction false} LeftmostMatch(p: Pattern, to: string, gap: string, t: string)
    requires NoMatchBefore(p, gap + t, |gap|) && MatchLen(p, t) > 0
    ensures ReplaceAll(p, to, gap + t) == gap + (to + ReplaceAll(p, to, t[MatchLen(p, t)..]))
    decreases |gap|
  {
    if gap == "" {
      assert gap + t == t;
    } else {
      NoMatchTail(p, gap + t, |gap|);
      TailOfConcat(gap, t);
      LeftmostMatch(p, to, gap[1..], t);
      ReplaceMiss(p, to, gap + t);
      PrependHead(gap, gap[0], to + ReplaceAll(p, to, t[MatchLen(p, t)..]));
    }
  }

  lemma {:induction false} NoMatch(p: Pattern, to: string, s: string)
    requires NoMatchBefore(p, s, |s|)
    ensures ReplaceAll(p, to, s) == s
    decreases |s|
  {
    if s != "" {
      NoMatchTail(p, s, |s|);
      NoMatch(p, to, s[1..]);
    }
  }

  lemma ReplaceCons(p: Pattern, to: string, c: char, s: string)
    requires MatchLen(p, [c] + s) == 0
    ensures ReplaceAll(p, to, [c] + s) == [c] + ReplaceAll(p, to, s)
  {
    assert ([c] + s)[1..] == s;
  }

  /** Literal passes that run one after another. */
  datatype Rule = Rule(from: string, to: string)

  function Passes(order: seq<Rule>, s: string): string {
    if order == [] then s
    else
      var r := order[|order| - 1];
      ReplaceAll(Literal(r.from), r.to, Passes(order[..|order| - 1], s))
  }

  predicate Headed(r: Rule, lead: char) {
    r.from != "" && r.from[0] == lead && lead !in r.from[1..] && r.to != ""
  }

  predicate Apart(r: Rule, q: Rule) {
    && (r.from <= q.from ==> r == q)
    && (forall c :: c in r.to ==> c !in q.from)
  }

  /** The family is independent: each pattern starts with `lead` and has no other `lead`, none is a
      prefix of another, and no replacement contains a character of any pattern. */
  ghost predicate Independent(rs: seq<Rule>, lead: char) {
    && (forall r :: r in rs ==> Headed(r, lead))
    && (forall r, q :: r in rs && q in rs ==> Apart(r, q))
  }

  /** Index of the first rule that matches at the front of `s`, or `|rs|`. */
  function FirstRule(rs: seq<Rule>, s: string): (i: nat)
    ensures i <= |rs|
    ensures i < |rs| ==> rs[i] in rs && rs[i].from <= s
    ensures i == |rs| ==> forall r :: r in rs ==> !(r.from <= s)
  {
    if rs == [] then 0 else if rs[0].from <= s then 0 else 1 + FirstRule(rs[1..], s)
  }

  /** One left-to-right scan that applies whichever rule matches. */
  function Simultaneous(rs: seq<Rule>, s: string): string
    decreases |s|
  {
    if s == "" then ""
    else
      var i := FirstRule(rs, s);
      if i < |rs| && rs[i].from != "" then rs[i].to + Simultaneous(rs, s[|rs[i].from|..])
      else [s[0]] + Simultaneous(rs, s[1..])
  }

  lemma MatchIsUnique(rs: seq<Rule>, lead: char, r: Rule, q: Rule, s: string)
    requires Independent(rs, lead) && r in rs && q in rs && r.from <= s && q.from <= s
    ensures r == q
  {
    assert Apart(r, q) && Apart(q, r);
    if |r.from| <= |q.from| {
      assert r.from <= q.from;
    } else {
      assert q.from <= r.from;
    }
  }

  lemma RuleFires(rs: seq<Rule>, lead: char, r: Rule, s: string)
    requires Independent(rs, lead) && r in rs && r.from <= s
    ensures s != "" && |r.from| > 0
    ensures Simultaneous(rs, s) == r.to + Simultaneous(rs, s[|r.from|..])
  {
    var i := FirstRule(rs, s);
    assert Headed(r, lead);
    MatchIsUnique(rs, lead, rs[i], r, s);
  }

  predicate AnyFires(rs: seq<Rule>, s: string) {
    FirstRule(rs, s) < |rs|
  }

  /** Where no rule matches, the character is copied. */
  lemma CopyChar(rs: seq<Rule>, s: string)
    requires s != "" && !AnyFires(rs, s)
    ensures Simultaneous(rs, s) == [s[0]] + Simultaneous(rs, s[1..])
  {
  }

  /** Text free of `lead` is copied. */
  lemma {:induction false} CopyPlain(rs: seq<Rule>, lead: char, w: string, s: string)
    requires Independent(rs, lead) && lead !in w
    ensures Simultaneous(rs, w + s) == w + Simultaneous(rs, s)
    decreases |w|
  {
    if w == "" {
      assert w + s == s;
    } else {
      TailOfConcat(w, s);
      NothingFires(rs, lead, w + s);
      CopyChar(rs, w + s);
      CopyPlain(rs, lead, w[1..], s);
      PrependHead(w, w[0], Simultaneous(rs, s));
    }
  }

  lemma NothingFires(rs: seq<Rule>, lead: char, s: string)
    requires Independent(rs, lead) && s != "" && s[0] != lead
    ensures !AnyFires(rs, s)
  {
    var i := FirstRule(rs, s);
    assert forall r :: r in rs ==> Headed(r, lead);
  }

  lemma HeadClash(w: string, to: string, s: string)
    requires w != "" && to != "" && Foreign(w, to)
    ensures !(w <= to + s)
  {
    assert to[0] in to && w[0] in w;
    assert (to + s)[0] == to[0];
  }

  /** Scanning invents no text made of characters that no replacement has. */
  lemma {:induction false} PlainPrefixSurvives(rs: seq<Rule>, lead: char, w: string, s: string)
    requires Independent(rs, lead)
    requires forall r :: r in rs ==> Foreign(w, r.to)
    requires w <= Simultaneous(rs, s)
    ensures w <= s
    decreases |w|
  {
    if w != "" {
      var i := FirstRule(rs, s);
      if i < |rs| {
        var r := rs[i];
        HeadClash(w, r.to, Simultaneous(rs, s[|r.from|..]));
        RuleFires(rs, lead, r, s);
        assert false;
      } else {
        CopyChar(rs, s);
        forall r | r in rs
          ensures Foreign(w[1..], r.to)
        {
          assert Foreign(w, r.to);
        }
        PlainPrefixSurvives(rs, lead, w[1..], s[1..]);
      }
    }
  }

  predicate Foreign(w: string, to: string) {
    forall c :: c in to ==> c !in w
  }

  /** Text without the first character of a literal is copied by that literal's pass. */
  lemma {:induction false} PassCopies(r: Rule, w: string, s: string)
    requires r.from != "" && r.from[0] !in w
    ensures ReplaceAll(Literal(r.from), r.to, w + s) == w + ReplaceAll(Literal(r.from), r.to, s)
    decreases |w|
  {
    if w == "" {
      assert w + s == s;
    } else {
      TailOfConcat(w, s);
      ReplaceMiss(Literal(r.from), r.to, w + s);
      PassCopies(r, w[1..], s);
      PrependHead(w, w[0], ReplaceAll(Literal(r.from), r.to, s));
    }
  }

  lemma PassFires(r: Rule, s: string)
    requires r.from != ""
    ensures ReplaceAll(Literal(r.from), r.to, r.from + s) == r.to + ReplaceAll(Literal(r.from), r.to, s)
  {
    assert r.from <= r.from + s && (r.from + s)[|r.from|..] == s;
  }

  ghost predicate Extends(bigger: seq<Rule>, rs: seq<Rule>, r: Rule) {
    forall q :: q in bigger <==> q in rs || q == r
  }

  lemma SubfamilyIndependent(all: seq<Rule>, rs: seq<Rule>, lead: char)
    requires Independent(all, lead) && forall q :: q in rs ==> q in all
    ensures Independent(rs, lead)
  {
  }

  /** One more pass over the result of a simultaneous scan is a scan with one more rule. */
  lemma {:induction false} OneMorePass(rs: seq<Rule>, r: Rule, all: seq<Rule>, lead: char, s: string)
    requires Independent(rs, lead) && Independent(all, lead) && Extends(all, rs, r)
    ensures ReplaceAll(Literal(r.from), r.to, Simultaneous(rs, s)) == Simultaneous(all, s)
    decreases |s|
  {
    assert r in all;
    assert Headed(r, lead);
    if s == "" {
    } else if AnyFires(rs, s) {
      var q := rs[FirstRule(rs, s)];
      RuleFires(rs, lead, q, s);
      RuleFires(all, lead, q, s);
      var rest := s[|q.from|..];
      assert r.from[0] !in q.to by {
        assert Apart(q, r);
      }
      PassCopies(r, q.to, Simultaneous(rs, rest));
      OneMorePass(rs, r, all, lead, rest);
    } else if r.from <= s {
      RuleFires(all, lead, r, s);
      var rest := s[|r.from|..];
      assert s == r.from + rest;
      ScanKeepsOtherMatch(rs, r, lead, rest);
      PassFires(r, Simultaneous(rs, rest));
      OneMorePass(rs, r, all, lead, rest);
    } else {
      CopyChar(rs, s);
      NeitherFires(rs, r, all, s);
      CopyChar(all, s);
      NoNewMatch(rs, r, all, lead, s);
      ReplaceCons(Literal(r.from), r.to, s[0], Simultaneous(rs, s[1..]));
      OneMorePass(rs, r, all, lead, s[1..]);
    }
  }

  lemma NeitherFires(rs: seq<Rule>, r: Rule, all: seq<Rule>, s: string)
    requires Extends(all, rs, r) && !AnyFires(rs, s) && !(r.from <= s)
    ensures !AnyFires(all, s)
  {
  }

  lemma ScanKeepsOtherMatch(rs: seq<Rule>, r: Rule, lead: char, rest: string)
    requires Independent(rs, lead) && Headed(r, lead)
    requires !AnyFires(rs, r.from + rest)
    ensures Simultaneous(rs, r.from + rest) == r.from + Simultaneous(rs, rest)
  {
    TailOfConcat(r.from, rest);
    CopyChar(rs, r.from + rest);
    CopyPlain(rs, lead, r.from[1..], rest);
    PrependHead(r.from, r.from[0], Simultaneous(rs, rest));
  }

  lemma NoNewMatch(rs: seq<Rule>, r: Rule, all: seq<Rule>, lead: char, s: string)
    requires Independent(rs, lead) && Independent(all, lead) && Extends(all, rs, r) && s != ""
    requires !(r.from <= s)
    ensures !(r.from <= [s[0]] + Simultaneous(rs, s[1..]))
  {
    var t := Simultaneous(rs, s[1..]);
    if r.from <= [s[0]] + t {
      assert r in all && Headed(r, lead);
      var w := r.from[1..];
      assert w <= t;
      forall q | q in rs
        ensures Foreign(w, q.to)
      {
        assert q in all && Apart(q, r);
      }
      PlainPrefixSurvives(rs, lead, w, s[1..]);
      assert false;
    }
  }

  /** Any sequence of independent literal passes, in any order and with any repetition, is one
      simultaneous left-to-right scan. */
  lemma {:induction false} PassesAreSimultaneous(order: seq<Rule>, lead: char, s: string)
    requires Independent(order, lead)
    ensures Passes(order, s) == Simultaneous(order, s)
    decreases |order|
  {
    if order == [] {
      NoRules(s);
    } else {
      var before, r := order[..|order| - 1], order[|order| - 1];
      assert order == before + [r];
      SubfamilyIndependent(order, before, lead);
      PassesAreSimultaneous(before, lead, s);
      OneMorePass(before, r, order, lead, s);
    }
  }

  lemma {:induction false} NoRules(s: string)
    ensures Simultaneous([], s) == s
    decreases |s|
  {
    if s != "" {
      NoRules(s[1..]);
    }
  }

  lemma {:induction false} ScanDependsOnRuleSet(a: seq<Rule>, b: seq<Rule>, lead: char, s: string)
    requires Independent(a, lead) && forall r :: r in a <==> r in b
    ensures Simultaneous(a, s) == Simultaneous(b, s)
    decreases |s|
  {
    SubfamilyIndependent(a, b, lead);
    if s == "" {
    } else if AnyFires(a, s) {
      var q := a[FirstRule(a, s)];
      assert q in a;
      RuleFires(a, lead, q, s);
      RuleFires(b, lead, q, s);
      ScanDependsOnRuleSet(a, b, lead, s[|q.from|..]);
    } else {
      assert !AnyFires(b, s);
      CopyChar(a, s);
      CopyChar(b, s);
      ScanDependsOnRuleSet(a, b, lead, s[1..]);
    }
  }

  /** Independent passes commute: two orders with the same rules give the same text. */
  lemma PassesCommute(a: seq<Rule>, b: seq<Rule>, lead: char, s: string)
    requires Independent(a, lead) && forall r :: r in a <==> r in b
    ensures Passes(a, s) == Passes(b, s)
  {
    SubfamilyIndependent(a, b, lead);
    PassesAreSimultaneous(a, lead, s);
    PassesAreSimultaneous(b, lead, s);
    ScanDependsOnRuleSet(a, b, lead, s);
  }

  /** No pattern occurs anywhere in the result of a scan. */
  lemma {:induction false} ScanLeavesNoMatch(rs: seq<Rule>, lead: char, s: string, r: Rule, i: nat)
    requires Independent(rs, lead) && r in rs && i <= |Simultaneous(rs, s)|
    ensures !(r.from <= Simultaneous(rs, s)[i..])
    decreases |s|
  {
    assert Headed(r, lead);
    if s == "" {
    } else if AnyFires(rs, s) {
      var q := rs[FirstRule(rs, s)];
      assert q in rs && Apart(q, r);
      RuleFires(rs, lead, q, s);
      var rest := Simultaneous(rs, s[|q.from|..]);
      if i < |q.to| {
        assert (q.to + rest)[i..][0] == q.to[i] && q.to[i] in q.to;
      } else {
        assert (q.to + rest)[i..] == rest[i - |q.to|..];
        ScanLeavesNoMatch(rs, lead, s[|q.from|..], r, i - |q.to|);
      }
    } else {
      CopyChar(rs, s);
      var rest := Simultaneous(rs, s[1..]);
      if i > 0 {
        assert ([s[0]] + rest)[i..] == rest[i - 1..];
        ScanLeavesNoMatch(rs, lead, s[1..], r, i - 1);
      } else {
        assert Simultaneous(rs, s)[0..] == [s[0]] + rest;
        NoNewMatch(rs, r, rs, lead, s);
      }
    }
  }
}
