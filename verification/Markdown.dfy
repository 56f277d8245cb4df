/** The tag passes of the problem-text pipeline: four literal rewrites, then every remaining tag is
    stripped. */
module Markdown {
  import opened Strings
  import opened Replace

  function HtmlToMarkdown(html: string): string {
    var out := ReplaceAll(Literal("<code>"), "`", html);
    var out := ReplaceAll(Literal("</code>"), "`", out);
    var out := ReplaceAll(Literal("<pre>"), "```", out);
    var out := ReplaceAll(Literal("</pre>"), "```", out);
    ReplaceAll(AnyTag, "", out)
  }

  const CODE := Rule("<code>", "`")
  const END_CODE := Rule("</code>", "`")
  const PRE := Rule("<pre>", "```")
  const END_PRE := Rule("</pre>", "```")
  const FORMATTING := [CODE, END_CODE, PRE, END_PRE]

  predicate IsFormatting(r: Rule) {
    r == CODE || r == END_CODE || r == PRE || r == END_PRE
  }

  lemma FormattingRules(r: Rule)
    ensures r in FORMATTING <==> IsFormatting(r)
  {
    assert FORMATTING[0] == CODE && FORMATTING[1] == END_CODE && FORMATTING[2] == PRE && FORMATTING[3] == END_PRE;
  }

  lemma HeadedFormatting(r: Rule)
    requires IsFormatting(r)
    ensures Headed(r, '<')
    ensures r.to == "`" || r.to == "```"
    ensures |r.from| >= 2 && r.from[|r.from| - 1] == '>' && '>' !in r.from[..|r.from| - 1] && '`' !in r.from
  {
    if r == CODE {
      TagShape("code");
    } else if r == END_CODE {
      TagShape("/code");
    } else if r == PRE {
      TagShape("pre");
    } else {
      TagShape("/pre");
    }
  }

  lemma TagShape(name: string)
    requires '<' !in name && '>' !in name && '`' !in name
    ensures var t := "<" + name + ">";
            t[0] == '<' && '<' !in t[1..] && t[|t| - 1] == '>' && '>' !in t[..|t| - 1] && '`' !in t
  {
    var t := "<" + name + ">";
    assert t[1..] == name + ">" && t[..|t| - 1] == "<" + name;
  }

  lemma ApartFormatting(r: Rule, q: Rule)
    requires IsFormatting(r) && IsFormatting(q)
    ensures Apart(r, q)
  {
    HeadedFormatting(q);
    HeadedFormatting(r);
    if r.from <= q.from {
      assert r.from[1] == q.from[1];
      assert |r.from| >= 3 && r.from[2] == q.from[2];
    }
  }

  lemma FormattingIsIndependent()
    ensures Independent(FORMATTING, '<')
  {
    forall r | r in FORMATTING
      ensures Headed(r, '<')
    {
      FormattingRules(r);
      HeadedFormatting(r);
    }
    forall r, q | r in FORMATTING && q in FORMATTING
      ensures Apart(r, q)
    {
      FormattingRules(r);
      FormattingRules(q);
      ApartFormatting(r, q);
    }
  }

  /** What is left for the strip pass after the four literal passes. */
  function Formatted(s: string): string {
    Simultaneous(FORMATTING, s)
  }

  function Strip(s: string): string {
    ReplaceAll(AnyTag, "", s)
  }

  lemma LiteralPassesFuse(html: string)
    ensures HtmlToMarkdown(html) == Strip(Formatted(html))
  {
    var a, b, c := [CODE], [CODE, END_CODE], [CODE, END_CODE, PRE];
    assert FORMATTING[..3] == c && c[..2] == b && b[..1] == a && a[..0] == [];
    var s0 := html;
    assert Passes([], s0) == s0;
    var s1 := ReplaceAll(Literal("<code>"), "`", s0);
    assert Passes(a, html) == s1;
    var s2 := ReplaceAll(Literal("</code>"), "`", s1);
    assert Passes(b, html) == s2;
    var s3 := ReplaceAll(Literal("<pre>"), "```", s2);
    assert Passes(c, html) == s3;
    assert Passes(FORMATTING, html) == ReplaceAll(Literal("</pre>"), "```", s3);
    FormattingIsIndependent();
    PassesAreSimultaneous(FORMATTING, '<', html);
  }

  /** The four literal passes may run in any order, each any number of times (at least once). */
  lemma LiteralPassesCommute(order: seq<Rule>, html: string)
    requires forall r :: r in order <==> IsFormatting(r)
    ensures HtmlToMarkdown(html) == Strip(Passes(order, html))
  {
    FormattingIsIndependent();
    forall r
      ensures r in FORMATTING <==> r in order
    {
      FormattingRules(r);
    }
    PassesCommute(FORMATTING, order, '<', html);
    LiteralPassesFuse(html);
    PassesAreSimultaneous(FORMATTING, '<', html);
  }

  lemma StripTag(s: string)
    requires s != "" && s[0] == '<' && '>' in s
    ensures Strip(s) == Strip(AfterClose(s))
  {
  }

  lemma StripCopies(s: string)
    requires s != "" && (s[0] != '<' || '>' !in s)
    ensures Strip(s) == [s[0]] + Strip(s[1..])
  {
  }

  // ----- normal form -----

  /** No `>` comes after a `<`. */
  ghost predicate TagFree(s: string) {
    forall i, j :: 0 <= i < j < |s| ==> !(s[i] == '<' && s[j] == '>')
  }

  lemma {:induction false} StripAddsNoClose(s: string)
    requires '>' !in s
    ensures '>' !in Strip(s)
    decreases |s|
  {
    if s != "" {
      StripCopies(s);
      StripAddsNoClose(s[1..]);
    }
  }

  lemma {:induction false} StripIsTagFree(s: string)
    ensures TagFree(Strip(s))
    decreases |s|
  {
    if s == "" {
    } else if s[0] == '<' && '>' in s {
      StripTag(s);
      StripIsTagFree(AfterClose(s));
    } else {
      StripCopies(s);
      StripIsTagFree(s[1..]);
      if s[0] == '<' {
        StripAddsNoClose(s[1..]);
      }
      PrependTagFree(s[0], Strip(s[1..]));
    }
  }

  lemma PrependTagFree(c: char, s: string)
    requires TagFree(s) && (c == '<' ==> '>' !in s)
    ensures TagFree([c] + s)
  {
    var t := [c] + s;
    forall i, j | 0 <= i < j < |t|
      ensures !(t[i] == '<' && t[j] == '>')
    {
      assert t[j] == s[j - 1] && t[j] in s;
      assert i > 0 ==> t[i] == s[i - 1];
    }
  }

  lemma TagFreeHasNoMatch(p: Pattern, s: string)
    requires TagFree(s)
    requires p == AnyTag || (p.Literal? && |p.text| > 1 && p.text[0] == '<' && p.text[|p.text| - 1] == '>')
    ensures NoMatchBefore(p, s, |s|)
  {
    forall i | 0 <= i < |s|
      ensures MatchLen(p, s[i..]) == 0
    {
      SuffixTagFree(s, i);
      var j := MatchSpansTag(p, s[i..]);
    }
  }

  lemma SuffixTagFree(s: string, i: nat)
    requires TagFree(s) && i <= |s|
    ensures TagFree(s[i..])
  {
    forall a, b | 0 <= a < b < |s[i..]|
      ensures !(s[i..][a] == '<' && s[i..][b] == '>')
    {
      assert s[i..][a] == s[i + a] && s[i..][b] == s[i + b];
    }
  }

  lemma MatchSpansTag(p: Pattern, t: string) returns (j: nat)
    requires p == AnyTag || (p.Literal? && |p.text| > 1 && p.text[0] == '<' && p.text[|p.text| - 1] == '>')
    ensures MatchLen(p, t) > 0 <==> j > 0
    ensures j > 0 ==> j < |t| && t[0] == '<' && t[j] == '>'
  {
    j := if MatchLen(p, t) > 0 then MatchLen(p, t) - 1 else 0;
  }

  /** Text without a complete tag passes through unchanged. */
  lemma TagFreeIsFixed(s: string)
    requires TagFree(s)
    ensures HtmlToMarkdown(s) == s
  {
    TagFreeHasNoMatch(Literal("<code>"), s);
    NoMatch(Literal("<code>"), "`", s);
    TagFreeHasNoMatch(Literal("</code>"), s);
    NoMatch(Literal("</code>"), "`", s);
    TagFreeHasNoMatch(Literal("<pre>"), s);
    NoMatch(Literal("<pre>"), "```", s);
    TagFreeHasNoMatch(Literal("</pre>"), s);
    NoMatch(Literal("</pre>"), "```", s);
    TagFreeHasNoMatch(AnyTag, s);
    NoMatch(AnyTag, "", s);
  }

  /** Normal form: the output never has `>` after `<`, and a second application changes nothing. */
  lemma NormalForm(html: string)
    ensures TagFree(HtmlToMarkdown(html))
    ensures HtmlToMarkdown(HtmlToMarkdown(html)) == HtmlToMarkdown(html)
  {
    LiteralPassesFuse(html);
    StripIsTagFree(Formatted(html));
    TagFreeIsFixed(HtmlToMarkdown(html));
  }

  // ----- one pass -----

  /** Number of characters of `s` up to and including the first `>` that does not end a formatting
      tag; 0 when there is none. */
  function Close(s: string): (n: nat)
    ensures n <= |s|
    decreases |s|
  {
    if s == "" then 0
    else
      var i := FirstRule(FORMATTING, s);
      if i < |FORMATTING| && FORMATTING[i].from != "" then
        var k := |FORMATTING[i].from|;
        var n := Close(s[k..]);
        if n == 0 then 0 else k + n
      else if s[0] == '>' then 1
      else
        var n := Close(s[1..]);
        if n == 0 then 0 else 1 + n
  }

  /** A single left-to-right translation: a formatting tag becomes its backticks; any other `<` drops
      everything up to the first `>` that no formatting tag owns, and stays when there is none. */
  function OnePass(s: string): string
    decreases |s|
  {
    if s == "" then ""
    else
      var i := FirstRule(FORMATTING, s);
      if i < |FORMATTING| && FORMATTING[i].from != "" then
        FORMATTING[i].to + OnePass(s[|FORMATTING[i].from|..])
      else if s[0] == '<' && Close(s[1..]) > 0 then OnePass(s[1 + Close(s[1..])..])
      else [s[0]] + OnePass(s[1..])
  }

  predicate FormattingAt(s: string) {
    AnyFires(FORMATTING, s)
  }

  /** The formatting rule whose tag `s` starts with. */
  function RuleAt(s: string): (r: Rule)
    requires FormattingAt(s)
    ensures r in FORMATTING && IsFormatting(r) && Headed(r, '<') && r.from <= s
  {
    var r := FORMATTING[FirstRule(FORMATTING, s)];
    FormattingRules(r);
    HeadedFormatting(r);
    r
  }

  lemma FormattingStep(s: string)
    requires FormattingAt(s)
    ensures var r := RuleAt(s); var rest := s[|r.from|..];
            && |r.from| > 0
            && Formatted(s) == r.to + Formatted(rest)
            && OnePass(s) == r.to + OnePass(rest)
            && Close(s) == (if Close(rest) == 0 then 0 else |r.from| + Close(rest))
  {
    FormattingIsIndependent();
    RuleFires(FORMATTING, '<', RuleAt(s), s);
  }

  lemma PlainStep(s: string)
    requires s != "" && !FormattingAt(s)
    ensures Formatted(s) == [s[0]] + Formatted(s[1..])
    ensures Close(s) == if s[0] == '>' then 1 else if Close(s[1..]) == 0 then 0 else 1 + Close(s[1..])
    ensures OnePass(s) == if s[0] == '<' && Close(s[1..]) > 0 then OnePass(s[1 + Close(s[1..])..])
                          else [s[0]] + OnePass(s[1..])
  {
    CopyChar(FORMATTING, s);
  }

  function AfterClose(s: string): string
    requires '>' in s
  {
    s[Find('>', s) + 1..]
  }

  /** `f` has a `>` exactly when `n` is positive, and then `g` follows the first one. */
  ghost predicate ClosesAt(f: string, n: nat, g: string) {
    && (n > 0 <==> '>' in f)
    && (n > 0 ==> AfterClose(f) == g)
  }

  /** `Close` sees in the source what the strip pass will find in the formatted text. */
  lemma {:induction false} CloseIsFirstClose(s: string)
    ensures ClosesAt(Formatted(s), Close(s), Formatted(s[Close(s)..]))
    decreases |s|
  {
    if s == "" {
    } else if FormattingAt(s) {
      var r := RuleAt(s);
      var rest := s[|r.from|..];
      CloseIsFirstClose(rest);
      FormattingStep(s);
      assert '>' !in r.to by {
        HeadedFormatting(r);
      }
      ShiftedClose(r.to, Formatted(rest));
      DropTwice(s, |r.from|, Close(rest));
    } else {
      var rest := s[1..];
      CloseIsFirstClose(rest);
      PlainStep(s);
      if s[0] == '>' {
        FirstIsClose(Formatted(rest));
      } else {
        ShiftedClose([s[0]], Formatted(rest));
        DropTwice(s, 1, Close(rest));
      }
    }
  }

  lemma FirstIsClose(s: string)
    ensures '>' in ">" + s && AfterClose(">" + s) == s
  {
    FindIsFirst('>', ">" + s, 0);
    DropPast(">", s, 0);
  }

  /** Dropping up to the first `>` ignores text without one in front. */
  lemma ShiftedClose(w: string, s: string)
    requires '>' !in w
    ensures '>' in w + s <==> '>' in s
    ensures '>' in s ==> AfterClose(w + s) == AfterClose(s)
  {
    FindAfter('>', w, s);
    if '>' in s {
      DropPast(w, s, Find('>', s) + 1);
    }
  }

  lemma {:induction false} StripFormatted(s: string)
    ensures Strip(Formatted(s)) == OnePass(s)
    decreases |s|
  {
    if s == "" {
    } else if FormattingAt(s) {
      StripFormatted(s[|RuleAt(s).from|..]);
      FormattingStep(s);
      StripKeepsFormatting(s);
    } else if s[0] == '<' && Close(s[1..]) > 0 {
      StripFormatted(s[1 + Close(s[1..])..]);
      PlainStep(s);
      StripDropsTag(s);
    } else {
      StripFormatted(s[1..]);
      PlainStep(s);
      StripKeepsPlain(s);
    }
  }

  lemma StripKeepsFormatting(s: string)
    requires FormattingAt(s)
    ensures Strip(Formatted(s)) == RuleAt(s).to + Strip(Formatted(s[|RuleAt(s).from|..]))
  {
    var r := RuleAt(s);
    FormattingStep(s);
    assert '<' !in r.to by {
      HeadedFormatting(r);
    }
    StripSkips(r.to, Formatted(s[|r.from|..]));
  }

  lemma StripKeepsPlain(s: string)
    requires s != "" && !FormattingAt(s) && (s[0] != '<' || Close(s[1..]) == 0)
    ensures Strip(Formatted(s)) == [s[0]] + Strip(Formatted(s[1..]))
  {
    PlainStep(s);
    var rest := Formatted(s[1..]);
    CloseIsFirstClose(s[1..]);
    assert s[0] == '<' ==> '>' !in [s[0]] + rest;
    StripCopies([s[0]] + rest);
    DropPast([s[0]], rest, 0);
  }

  lemma StripDropsTag(s: string)
    requires s != "" && !FormattingAt(s) && s[0] == '<' && Close(s[1..]) > 0
    ensures Strip(Formatted(s)) == Strip(Formatted(s[1 + Close(s[1..])..]))
  {
    PlainStep(s);
    var rest := Formatted(s[1..]);
    CloseIsFirstClose(s[1..]);
    ShiftedClose([s[0]], rest);
    StripTag([s[0]] + rest);
    DropTwice(s, 1, Close(s[1..]));
  }

  lemma {:induction false} StripSkips(w: string, s: string)
    requires '<' !in w
    ensures Strip(w + s) == w + Strip(s)
    decreases |w|
  {
    if w == "" {
      assert w + s == s;
    } else {
      TailOfConcat(w, s);
      StripCopies(w + s);
      StripSkips(w[1..], s);
      PrependHead(w, w[0], Strip(s));
    }
  }

  /** On every input the five sequential replacements equal the single left-to-right pass. */
  lemma FivePassesAreOnePass(html: string)
    ensures HtmlToMarkdown(html) == OnePass(html)
  {
    LiteralPassesFuse(html);
    StripFormatted(html);
  }
}
