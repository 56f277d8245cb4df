/** The plain reading of the tag passes, one tag at a time, and exactly when the passes agree with it. */
module TagTranslation {
  import opened Strings
  import opened Replace
  import opened Markdown

  /** `t` runs from a `<` to the first `>` after it. */
  predicate IsTag(t: string) {
    |t| >= 2 && t[0] == '<' && t[|t| - 1] == '>' && '>' !in t[..|t| - 1]
  }

  function RenderTag(t: string): string {
    if t == "<code>" || t == "</code>" then "`"
    else if t == "<pre>" || t == "</pre>" then "```"
    else ""
  }

  predicate StartsTag(s: string) {
    s != "" && s[0] == '<' && '>' in s
  }

  /** The tag at the front of `s`. */
  function TagOf(s: string): (t: string)
    requires StartsTag(s)
    ensures IsTag(t) && t <= s
  {
    s[..Find('>', s) + 1]
  }

  function TagAtATime(s: string): string
    decreases |s|
  {
    if s == "" then ""
    else if StartsTag(s) then RenderTag(TagOf(s)) + TagAtATime(s[|TagOf(s)|..])
    else [s[0]] + TagAtATime(s[1..])
  }

  /** No formatting tag is hidden at the end of a longer tag. */
  ghost predicate CleanTag(t: string) {
    forall r :: r in FORMATTING && EndsWith(t, r.from) ==> t == r.from
  }

  ghost predicate Clean(s: string)
    decreases |s|
  {
    if s == "" then true
    else if StartsTag(s) then CleanTag(TagOf(s)) && Clean(s[|TagOf(s)|..])
    else Clean(s[1..])
  }

  /** `y` ends in its only `>`. */
  predicate EndsInOnlyClose(y: string) {
    y != "" && y[|y| - 1] == '>' && '>' !in y[..|y| - 1]
  }

  /** A formatting tag at the front of `y + w` is all of `y` when `y` ends in its only `>`. */
  lemma FrontRuleIsWhole(y: string, w: string, q: Rule)
    requires EndsInOnlyClose(y) && q in FORMATTING && q.from <= y + w
    ensures q.from == y
  {
    FormattingRules(q);
    HeadedFormatting(q);
    var s, m, n := y + w, |q.from| - 1, |y| - 1;
    assert s[..n] == y[..n] && s[..m] == q.from[..m];
    FindIsFirst('>', s, n);
    FindIsFirst('>', s, m);
    assert y == s[..|y|];
  }

  lemma FormattingHasClose(s: string)
    requires FormattingAt(s)
    ensures '>' in s
  {
    var r := RuleAt(s);
    HeadedFormatting(r);
    assert s[|r.from| - 1] == r.from[|r.from| - 1];
  }

  lemma NotFormattingAt(y: string, w: string)
    requires EndsInOnlyClose(y) && forall r :: r in FORMATTING ==> r.from != y
    ensures !FormattingAt(y + w)
  {
    var i := FirstRule(FORMATTING, y + w);
    if i < |FORMATTING| {
      FrontRuleIsWhole(y, w, FORMATTING[i]);
    }
  }

  /** No formatting tag ends `y`. */
  ghost predicate HidesNone(y: string) {
    forall r :: r in FORMATTING ==> !EndsWith(y, r.from)
  }

  lemma HidesNoneTail(y: string)
    requires y != "" && HidesNone(y)
    ensures HidesNone(y[1..])
  {
    forall r | r in FORMATTING
      ensures !EndsWith(y[1..], r.from)
    {
      if EndsWith(y[1..], r.from) {
        EndsWithTail(y, r.from);
      }
    }
  }

  lemma OnlyCloseTail(y: string)
    requires EndsInOnlyClose(y) && |y| > 1
    ensures y[0] != '>' && EndsInOnlyClose(y[1..])
  {
    var n := |y| - 1;
    assert y[..n][0] == y[0] && y[1..][..n - 1] == y[..n][1..];
  }

  lemma HidesNoneIsPlain(y: string, w: string)
    requires EndsInOnlyClose(y) && HidesNone(y)
    ensures !FormattingAt(y + w)
  {
    forall r | r in FORMATTING
      ensures r.from != y
    {
      assert y[|y| - |y|..] == y;
      assert EndsWith(y, y) && !EndsWith(y, r.from);
    }
    NotFormattingAt(y, w);
  }

  lemma {:induction false} CloseScans(y: string, w: string)
    requires EndsInOnlyClose(y) && HidesNone(y)
    ensures Close(y + w) == |y|
    decreases |y|
  {
    HidesNoneIsPlain(y, w);
    TailOfConcat(y, w);
    PlainStep(y + w);
    if |y| > 1 {
      OnlyCloseTail(y);
      HidesNoneTail(y);
      CloseScans(y[1..], w);
    }
  }

  /** A clean tag costs both translations the same. */
  lemma CleanTagStep(t: string, w: string)
    requires IsTag(t) && CleanTag(t)
    ensures OnePass(t + w) == RenderTag(t) + OnePass(w)
  {
    if r :| r in FORMATTING && r.from == t {
      FormattingTagStep(t, w, r);
    } else {
      NotRendered(t);
      OtherTagStep(t, w);
    }
  }

  lemma OtherTagStep(t: string, w: string)
    requires IsTag(t) && HidesNone(t)
    ensures OnePass(t + w) == OnePass(w)
  {
    HidesNoneIsPlain(t, w);
    TailOfConcat(t, w);
    PlainStep(t + w);
    OnlyCloseTail(t);
    HidesNoneTail(t);
    CloseScans(t[1..], w);
    DropPast(t, w, 0);
  }

  lemma FormattingTagStep(t: string, w: string, r: Rule)
    requires r in FORMATTING && r.from == t
    ensures OnePass(t + w) == RenderTag(t) + OnePass(w)
  {
    FormattingIsIndependent();
    assert r.from <= t + w;
    assert FormattingAt(t + w);
    FormattingStep(t + w);
    MatchIsUnique(FORMATTING, '<', r, RuleAt(t + w), t + w);
    FormattingRules(r);
    DropPast(t, w, 0);
  }

  lemma NotRendered(t: string)
    requires forall r :: r in FORMATTING ==> r.from != t
    ensures RenderTag(t) == ""
  {
    FormattingRules(CODE);
    FormattingRules(END_CODE);
    FormattingRules(PRE);
    FormattingRules(END_PRE);
  }

  /** Input that is just a tag hiding a formatting tag keeps its `<`. */
  lemma DirtyTagDiffers(t: string)
    requires IsTag(t) && !CleanTag(t)
    ensures OnePass(t) != TagAtATime(t)
  {
    FindIsFirst('>', t, |t| - 1);
    assert TagOf(t) == t && t[|t|..] == "";
    HidingTagAgrees(t);
  }

  lemma HiddenPrefixIsPlain(x: string, r: Rule)
    requires r in FORMATTING && IsTag(x + r.from)
    ensures '>' !in x
  {
    var t := x + r.from;
    FormattingRules(r);
    HeadedFormatting(r);
    assert t[..|t| - 1][..|x|] == x;
    assert forall c :: c in x ==> c in t[..|t| - 1];
  }

  lemma WholeIsNotHidden(x: string, r: Rule, q: Rule)
    requires r in FORMATTING && q in FORMATTING && x != ""
    ensures q.from != x + r.from
  {
    FormattingRules(q);
    FormattingRules(r);
    HeadedFormatting(q);
    HeadedFormatting(r);
    var t := x + r.from;
    assert t[1..][|x| - 1] == '<';
  }

  lemma {:induction false} NoCloseCopies(s: string)
    requires '>' !in s
    ensures OnePass(s) == s && TagAtATime(s) == s && Close(s) == 0 && Clean(s)
    decreases |s|
  {
    if s != "" {
      NoCloseCopies(s[1..]);
      if FormattingAt(s) {
        FormattingHasClose(s);
      }
      PlainStep(s);
    }
  }

  lemma PlainCharStep(s: string)
    requires s != "" && s[0] != '<'
    ensures OnePass(s) == [s[0]] + OnePass(s[1..])
    ensures TagAtATime(s) == [s[0]] + TagAtATime(s[1..])
  {
    FormattingIsIndependent();
    NothingFires(FORMATTING, '<', s);
    PlainStep(s);
  }

  lemma {:induction false} CleanAgrees(s: string)
    requires Clean(s)
    ensures OnePass(s) == TagAtATime(s)
    decreases |s|
  {
    if s == "" {
    } else if StartsTag(s) {
      var t := TagOf(s);
      assert s == t + s[|t|..];
      CleanTagStep(t, s[|t|..]);
      CleanAgrees(s[|t|..]);
    } else if s[0] != '<' {
      PlainCharStep(s);
      CleanAgrees(s[1..]);
    } else {
      NoCloseCopies(s);
    }
  }

  lemma TagStep(t: string, w: string)
    requires IsTag(t)
    ensures StartsTag(t + w) && TagOf(t + w) == t && (t + w)[|t|..] == w
    ensures TagAtATime(t + w) == RenderTag(t) + TagAtATime(w)
  {
    var s, n := t + w, |t| - 1;
    assert s[..n] == t[..n] && s[n] == '>';
    FindIsFirst('>', s, n);
    DropPast(t, w, 0);
    assert s[..n + 1] == t;
  }

  lemma {:induction false} CleanPrefix(s: string, p: string)
    requires Clean(s) && p <= s
    ensures Clean(p)
    decreases |s|
  {
    if p == "" {
    } else if StartsTag(s) {
      var t := TagOf(s);
      if |t| <= |p| {
        var w := p[|t|..];
        assert p == t + w && w <= s[|t|..];
        TagStep(t, w);
        CleanPrefix(s[|t|..], w);
      } else {
        assert p <= t[..|t| - 1];
        NoCloseCopies(p);
      }
    } else if s[0] == '<' {
      NoCloseCopies(p);
    } else {
      CleanPrefix(s[1..], p[1..]);
    }
  }

  /** The two translations part. */
  ghost predicate Parts(s: string) {
    OnePass(s) != TagAtATime(s)
  }

  lemma PartsAfterTag(t: string, w: string)
    requires IsTag(t) && CleanTag(t) && Parts(w)
    ensures Parts(t + w)
  {
    CleanTagStep(t, w);
    TagStep(t, w);
    SameHead(RenderTag(t), OnePass(w), TagAtATime(w));
  }

  lemma PartsAfterChar(c: char, w: string)
    requires c != '<' && Parts(w)
    ensures Parts([c] + w)
  {
    PlainCharStep([c] + w);
    DropPast([c], w, 0);
    SameHead([c], OnePass(w), TagAtATime(w));
  }

  /** An unclean input has a prefix on which the two translations part. */
  lemma {:induction false} DirtyPrefix(s: string) returns (p: string)
    requires !Clean(s)
    ensures p <= s && Parts(p)
    decreases |s|
  {
    if '>' !in s {
      NoCloseCopies(s);
    }
    if StartsTag(s) {
      var t := TagOf(s);
      assert !CleanTag(t) || !Clean(s[|t|..]);
      if CleanTag(t) {
        var w := DirtyPrefix(s[|t|..]);
        PartsAfterTag(t, w);
        JoinPrefix(s, t, w);
        p := t + w;
      } else {
        DirtyTagDiffers(t);
        p := t;
      }
    } else {
      var w := DirtyPrefix(s[1..]);
      PartsAfterChar(s[0], w);
      JoinPrefix(s, [s[0]], w);
      p := [s[0]] + w;
    }
  }

  /** The five passes translate every prefix of the input one tag at a time if and only if no tag of
      the input hides a formatting tag at its end. */
  lemma AgreesIffClean(html: string)
    ensures Clean(html) <==> forall p :: p <= html ==> HtmlToMarkdown(p) == TagAtATime(p)
  {
    if Clean(html) {
      forall p | p <= html
        ensures HtmlToMarkdown(p) == TagAtATime(p)
      {
        CleanPrefix(html, p);
        CleanAgrees(p);
        FivePassesAreOnePass(p);
      }
    } else {
      var p := DirtyPrefix(html);
      FivePassesAreOnePass(p);
    }
  }

  /** The smallest kind of input on which they differ: a formatting tag inside another tag. */
  lemma NestedTagDiffers()
    ensures HtmlToMarkdown("<a<code>") != TagAtATime("<a<code>")
  {
    var t := "<a<code>";
    FormattingRules(CODE);
    assert EndsWith(t, CODE.from);
    assert t[..|t| - 1] == "<a<code";
    DirtyTagDiffers(t);
    FivePassesAreOnePass(t);
  }

  // ----- exactly when they agree -----

  predicate IsFormattingTag(t: string) {
    t == "<code>" || t == "</code>" || t == "<pre>" || t == "</pre>"
  }

  lemma FormattingTags(t: string)
    ensures IsFormattingTag(t) <==> exists r :: r in FORMATTING && r.from == t
    ensures RenderTag(t) != "" <==> IsFormattingTag(t)
    ensures IsFormattingTag(t) ==> '<' !in RenderTag(t)
  {
    FormattingRules(CODE);
    FormattingRules(END_CODE);
    FormattingRules(PRE);
    FormattingRules(END_PRE);
    if r :| r in FORMATTING && r.from == t {
      FormattingRules(r);
    }
  }

  predicate StartsOtherTag(s: string) {
    StartsTag(s) && !IsFormattingTag(TagOf(s))
  }

  /** Every tag that hides a formatting tag at its end is directly followed by a tag that is not a
      formatting tag. */
  ghost predicate HiddenAreFollowed(s: string)
    decreases |s|
  {
    if s == "" then true
    else if StartsTag(s) then
      var rest := s[|TagOf(s)|..];
      (CleanTag(TagOf(s)) || StartsOtherTag(rest)) && HiddenAreFollowed(rest)
    else HiddenAreFollowed(s[1..])
  }

  function Opens(s: string): nat {
    if s == "" then 0 else (if s[0] == '<' then 1 else 0) + Opens(s[1..])
  }

  /** Number of `<` that no `>` follows. */
  function Unclosed(s: string): nat {
    if s == "" then 0
    else
      var n := |s| - 1;
      if s[n] == '>' then 0 else (if s[n] == '<' then 1 else 0) + Unclosed(s[..n])
  }

  lemma OpensCons(c: char, s: string)
    ensures Opens([c] + s) == (if c == '<' then 1 else 0) + Opens(s)
  {
    assert ([c] + s)[1..] == s;
  }

  lemma {:induction false} OpensAfter(w: string, s: string)
    requires '<' !in w
    ensures Opens(w + s) == Opens(s)
    decreases |w|
  {
    if w == "" {
      assert w + s == s;
    } else {
      TailOfConcat(w, s);
      OpensAfter(w[1..], s);
    }
  }

  lemma {:induction false} UnclosedPast(s: string, k: nat)
    requires 0 < k <= |s| && s[k - 1] == '>'
    ensures Unclosed(s) == Unclosed(s[k..])
    decreases |s|
  {
    var n := |s| - 1;
    if k < |s| && s[n] != '>' {
      UnclosedPast(s[..n], k);
      assert s[k..][..n - k] == s[..n][k..];
    }
  }

  lemma {:induction false} UnclosedCons(c: char, s: string)
    ensures Unclosed([c] + s) == (if c == '<' && '>' !in s then 1 else 0) + Unclosed(s)
    decreases |s|
  {
    var t, n := [c] + s, |s|;
    if s == "" {
      assert t[..0] == "";
    } else if s[n - 1] != '>' {
      UnclosedCons(c, s[..n - 1]);
      assert t[..n] == [c] + s[..n - 1];
      assert s == s[..n - 1] + [s[n - 1]];
    }
  }

  lemma {:induction false} CloseEndsInClose(s: string)
    requires Close(s) > 0
    ensures s[Close(s) - 1] == '>'
    decreases |s|
  {
    if FormattingAt(s) {
      FormattingStep(s);
      CloseEndsInClose(s[|RuleAt(s).from|..]);
    } else {
      PlainStep(s);
      if s[0] != '>' {
        CloseEndsInClose(s[1..]);
      }
    }
  }

  /** A formatting tag in front is a step of both translations. */
  lemma FormattingFront(s: string)
    requires FormattingAt(s)
    ensures var t := RuleAt(s).from;
            && IsTag(t) && IsFormattingTag(t) && t <= s && StartsTag(s) && TagOf(s) == t && CleanTag(t)
            && OnePass(s) == RenderTag(t) + OnePass(s[|t|..])
            && TagAtATime(s) == RenderTag(t) + TagAtATime(s[|t|..])
  {
    var r := RuleAt(s);
    var t, w := r.from, s[|r.from|..];
    assert s == t + w;
    HeadedFormatting(r);
    FormattingTags(t);
    TagStep(t, w);
    FormattingTagStep(t, w, r);
    FormattingTagIsClean(r);
  }

  lemma FormattingTagIsClean(r: Rule)
    requires r in FORMATTING
    ensures CleanTag(r.from)
  {
    forall q | q in FORMATTING && EndsWith(r.from, q.from)
      ensures r.from == q.from
    {
      var x := r.from[..|r.from| - |q.from|];
      assert r.from == x + q.from;
      if x != "" {
        WholeIsNotHidden(x, q, r);
      }
    }
  }

  lemma Dropped(s: string, n: nat)
    requires s != "" && !FormattingAt(s) && s[0] == '<' && n == Close(s[1..]) > 0
    ensures n < |s| && OnePass(s) == OnePass(s[1 + n..])
  {
    PlainStep(s);
  }

  /** What is dropped ends in `>`, so it holds no unclosed `<`. */
  lemma DroppedIsClosed(s: string, n: nat)
    requires s != "" && n == Close(s[1..]) > 0
    ensures n < |s| && s[n] == '>' && Unclosed(s) == Unclosed(s[1 + n..])
  {
    CloseEndsInClose(s[1..]);
    UnclosedPast(s, 1 + n);
  }

  /** Copying the first character keeps the count, and exceeds it at a `<` that is closed. */
  lemma KeptCounts(s: string, rest: string)
    requires s != "" && Opens(rest) >= Unclosed(s[1..])
    ensures Opens([s[0]] + rest) >= Unclosed(s)
    ensures s[0] == '<' && '>' in s ==> Opens([s[0]] + rest) > Unclosed(s)
  {
    OpensCons(s[0], rest);
    UnclosedCons(s[0], s[1..]);
    assert s == [s[0]] + s[1..];
  }

  lemma FormattingCounts(s: string)
    requires FormattingAt(s)
    ensures var rest := s[|RuleAt(s).from|..];
            Opens(OnePass(s)) == Opens(OnePass(rest)) && Unclosed(s) == Unclosed(rest)
  {
    var t := RuleAt(s).from;
    FormattingFront(s);
    FormattingTags(t);
    OpensAfter(RenderTag(t), OnePass(s[|t|..]));
    UnclosedPast(s, |t|);
  }

  lemma Kept(s: string)
    requires s != "" && !FormattingAt(s) && (s[0] != '<' || Close(s[1..]) == 0)
    ensures OnePass(s) == [s[0]] + OnePass(s[1..])
  {
    PlainStep(s);
  }

  lemma {:induction false} OnePassKeepsUnclosed(s: string)
    ensures Opens(OnePass(s)) >= Unclosed(s)
    decreases |s|
  {
    if s == "" {
    } else if FormattingAt(s) {
      FormattingCounts(s);
      OnePassKeepsUnclosed(s[|RuleAt(s).from|..]);
    } else if s[0] == '<' && Close(s[1..]) > 0 {
      var n := Close(s[1..]);
      Dropped(s, n);
      DroppedIsClosed(s, n);
      OnePassKeepsUnclosed(s[1 + n..]);
    } else {
      Kept(s);
      OnePassKeepsUnclosed(s[1..]);
      KeptCounts(s, OnePass(s[1..]));
    }
  }

  /** A `<` that the passes keep although a `>` follows. */
  lemma KeepStep(s: string)
    requires s != "" && !FormattingAt(s) && s[0] == '<' && '>' in s && Close(s[1..]) == 0
    ensures Opens(OnePass(s)) > Unclosed(s)
  {
    Kept(s);
    OnePassKeepsUnclosed(s[1..]);
    KeptCounts(s, OnePass(s[1..]));
  }

  lemma {:induction false} TagAtATimeKeepsUnclosed(s: string)
    ensures Opens(TagAtATime(s)) == Unclosed(s)
    decreases |s|
  {
    if s == "" {
    } else if StartsTag(s) {
      var t := TagOf(s);
      FormattingTags(t);
      TagAtATimeKeepsUnclosed(s[|t|..]);
      OpensAfter(RenderTag(t), TagAtATime(s[|t|..]));
      UnclosedPast(s, |t|);
    } else {
      TagAtATimeKeepsUnclosed(s[1..]);
      OpensCons(s[0], TagAtATime(s[1..]));
      UnclosedCons(s[0], s[1..]);
      assert s == [s[0]] + s[1..];
    }
  }

  lemma FirstCloseEndsTag(s: string, k: nat)
    requires StartsTag(s) && 0 < k <= |s| && s[k - 1] == '>'
    ensures |TagOf(s)| <= k
  {
    var n := Find('>', s);
    assert forall i :: 0 <= i < n ==> s[..n][i] == s[i];
  }

  /** Skipping up to a `>` only loses output. */
  lemma {:induction false} SkippingShortens(s: string, k: nat)
    requires k <= |s| && (k > 0 ==> s[k - 1] == '>')
    ensures |TagAtATime(s[k..])| <= |TagAtATime(s)|
    decreases |s|
  {
    if k == 0 {
      assert s[0..] == s;
    } else if StartsTag(s) {
      var n := |TagOf(s)|;
      FirstCloseEndsTag(s, k);
      DropTwice(s, n, k - n);
      SkippingShortens(s[n..], k - n);
    } else {
      DropTwice(s, 1, k - 1);
      SkippingShortens(s[1..], k - 1);
    }
  }

  /** When the passes leave no other `<` than those, they drop at least as much. */
  lemma {:induction false} OnePassIsShorter(s: string)
    requires Opens(OnePass(s)) <= Unclosed(s)
    ensures |OnePass(s)| <= |TagAtATime(s)|
    decreases |s|
  {
    if s == "" {
    } else if FormattingAt(s) {
      FormattingCounts(s);
      FormattingFront(s);
      OnePassIsShorter(s[|RuleAt(s).from|..]);
    } else if '>' !in s {
      NoCloseCopies(s);
    } else if s[0] != '<' {
      PlainCharStep(s);
      OpensCons(s[0], OnePass(s[1..]));
      UnclosedCons(s[0], s[1..]);
      assert s == [s[0]] + s[1..];
      OnePassIsShorter(s[1..]);
    } else if Close(s[1..]) > 0 {
      var n := Close(s[1..]);
      Dropped(s, n);
      DroppedIsClosed(s, n);
      OnePassIsShorter(s[1 + n..]);
      SkippingShortens(s, 1 + n);
    } else {
      KeepStep(s);
    }
  }

  lemma CloseThroughFormatting(r: Rule, w: string, s: string)
    requires r in FORMATTING && s == r.from + w
    ensures Close(s) == if Close(w) == 0 then 0 else |r.from| + Close(w)
  {
    assert r.from <= s && FormattingAt(s);
    FormattingStep(s);
    FormattingIsIndependent();
    MatchIsUnique(FORMATTING, '<', r, RuleAt(s), s);
    DropPast(r.from, w, 0);
  }

  lemma PartsTail(x: string, f: string, w: string)
    requires x != ""
    ensures (x + f + w)[0] == x[0] && (x + f + w)[1..] == x[1..] + f + w
  {
  }

  lemma {:induction false} CloseThroughHidden(x: string, r: Rule, w: string)
    requires r in FORMATTING && '>' !in x
    ensures Close(x + r.from + w) == if Close(w) == 0 then 0 else |x| + |r.from| + Close(w)
    decreases |x|
  {
    if x == "" {
      CloseThroughFormatting(r, w, x + r.from + w);
    } else {
      HiddenNeverInFront(x, r, w);
      PartsTail(x, r.from, w);
      CloseThroughHidden(x[1..], r, w);
      PlainStep(x + r.from + w);
    }
  }

  lemma HiddenNeverInFront(x: string, r: Rule, w: string)
    requires r in FORMATTING && '>' !in x && x != ""
    ensures !FormattingAt(x + r.from + w)
  {
    var y := x + r.from;
    FormattingRules(r);
    HeadedFormatting(r);
    assert y[..|y| - 1] == x + r.from[..|r.from| - 1];
    forall q | q in FORMATTING
      ensures q.from != y
    {
      WholeIsNotHidden(x, r, q);
    }
    NotFormattingAt(y, w);
  }

  lemma HidingTagParts(t: string) returns (x: string, r: Rule)
    requires IsTag(t) && !CleanTag(t)
    ensures r in FORMATTING && t == x + r.from && x != "" && '>' !in x
  {
    r :| r in FORMATTING && EndsWith(t, r.from) && t != r.from;
    x := t[..|t| - |r.from|];
    assert t == x + r.from;
    HiddenPrefixIsPlain(x, r);
  }

  /** The input starts with a tag that hides a formatting tag. */
  ghost predicate StartsHiding(s: string) {
    StartsTag(s) && !CleanTag(TagOf(s))
  }

  /** Such a tag vanishes when tags are translated one at a time. */
  lemma HidingTagVanishes(s: string)
    requires StartsHiding(s)
    ensures var w := s[|TagOf(s)|..]; TagAtATime(s) == TagAtATime(w) && Unclosed(s) == Unclosed(w)
  {
    var t := TagOf(s);
    FormattingTags(t);
    if IsFormattingTag(t) {
      var q :| q in FORMATTING && q.from == t;
      FormattingTagIsClean(q);
      assert false;
    }
    UnclosedPast(s, |t|);
  }

  /** The input around the hidden tag. */
  lemma HidingParts(s: string) returns (x: string, r: Rule, w: string)
    requires StartsHiding(s)
    ensures r in FORMATTING && x != "" && '>' !in x && s == x + r.from + w
    ensures |TagOf(s)| == |x| + |r.from| && w == s[|TagOf(s)|..]
  {
    var t := TagOf(s);
    x, r := HidingTagParts(t);
    w := s[|t|..];
    assert s == t + w;
  }

  lemma HidingTagIsPlain(s: string)
    requires StartsHiding(s)
    ensures !FormattingAt(s)
  {
    var x, r, w := HidingParts(s);
    HiddenNeverInFront(x, r, w);
  }

  lemma HidingTagCloses(s: string)
    requires StartsHiding(s)
    ensures var k := |TagOf(s)|; Close(s[1..]) == if Close(s[k..]) == 0 then 0 else k - 1 + Close(s[k..])
  {
    var x, r, w := HidingParts(s);
    PartsTail(x, r.from, w);
    CloseThroughHidden(x[1..], r, w);
  }

  /** The passes also drop the text up to the next `>` they can use, or keep the `<`. */
  lemma HidingTagStep(s: string, k: nat, n: nat)
    requires StartsHiding(s) && k == |TagOf(s)| && n == Close(s[k..])
    ensures n > 0 ==> OnePass(s) == OnePass(s[k..][n..])
    ensures n == 0 ==> Opens(OnePass(s)) > Unclosed(s)
  {
    HidingTagIsPlain(s);
    HidingTagCloses(s);
    if n > 0 {
      DroppedThrough(s, k, n, k - 1 + n);
    } else {
      KeepStep(s);
    }
  }

  lemma DroppedThrough(s: string, k: nat, n: nat, m: nat)
    requires s != "" && s[0] == '<' && !FormattingAt(s) && k + n <= |s| && m + 1 == k + n
    requires Close(s[1..]) == m > 0
    ensures OnePass(s) == OnePass(s[k..][n..])
  {
    SameRest(s, k, n, m);
    Dropped(s, m);
  }

  lemma SameRest(s: string, k: nat, n: nat, m: nat)
    requires k + n == m + 1 <= |s|
    ensures s[1 + m..] == s[k..][n..]
  {
  }

  /** Where a tag in front is not a formatting tag, the passes treat what precedes its end alike. */
  lemma OtherTagAbsorbs(w: string)
    requires StartsOtherTag(w)
    ensures Close(w) > 0 ==> OnePass(w) == OnePass(w[Close(w)..])
    ensures Close(w) == 0 ==> Opens(OnePass(w)) > Unclosed(w)
  {
    if FormattingAt(w) {
      FormattingFront(w);
      assert false;
    } else {
      PlainStep(w);
      if Close(w[1..]) > 0 {
        Dropped(w, Close(w[1..]));
      } else {
        KeepStep(w);
      }
    }
  }

  lemma FormattingIsVisible(w: string, rest: string)
    requires FormattingAt(w) && rest == w[|RuleAt(w).from|..]
    ensures |TagAtATime(rest)| < |TagAtATime(w)|
  {
    FormattingFront(w);
    FormattingTags(RuleAt(w).from);
  }

  lemma CloseAfterFormatting(w: string, rest: string)
    requires FormattingAt(w) && rest == w[|RuleAt(w).from|..] && Close(w) > 0
    ensures Close(rest) > 0 && w[Close(w)..] == rest[Close(rest)..]
  {
    FormattingStep(w);
    DropTwice(w, |RuleAt(w).from|, Close(rest));
  }

  lemma FormattingIsLost(w: string)
    requires FormattingAt(w) && Close(w) > 0
    ensures |TagAtATime(w[Close(w)..])| < |TagAtATime(w)|
  {
    var rest := w[|RuleAt(w).from|..];
    CloseAfterFormatting(w, rest);
    FormattingIsVisible(w, rest);
    CloseEndsInClose(rest);
    SkippingShortens(rest, Close(rest));
  }

  /** Text or a formatting tag in front gives output that dropping loses. */
  lemma VisibleIsLost(w: string)
    requires !StartsOtherTag(w) && Close(w) > 0
    ensures |TagAtATime(w[Close(w)..])| < |TagAtATime(w)|
  {
    if FormattingAt(w) {
      FormattingIsLost(w);
    } else {
      if StartsTag(w) {
        TagInFrontIsOther(w);
        assert false;
      }
      var k := Close(w);
      CloseEndsInClose(w);
      DropTwice(w, 1, k - 1);
      SkippingShortens(w[1..], k - 1);
    }
  }

  lemma TagInFrontIsOther(w: string)
    requires StartsTag(w) && !FormattingAt(w)
    ensures StartsOtherTag(w)
  {
    FormattingTags(TagOf(w));
  }

  lemma HidingTagAgrees(s: string)
    requires StartsHiding(s)
    ensures var w := s[|TagOf(s)|..];
            OnePass(s) == TagAtATime(s) <==> StartsOtherTag(w) && OnePass(w) == TagAtATime(w)
  {
    var k := |TagOf(s)|;
    var w := s[k..];
    var n := Close(w);
    HidingTagStep(s, k, n);
    HidingTagVanishes(s);
    TagAtATimeKeepsUnclosed(w);
    TagAtATimeKeepsUnclosed(s);
    if StartsOtherTag(w) {
      OtherTagAbsorbs(w);
    } else if n > 0 {
      DroppedOutputDiffers(w, n);
    }
  }

  lemma DroppedOutputDiffers(w: string, n: nat)
    requires !StartsOtherTag(w) && n == Close(w) > 0
    ensures OnePass(w[n..]) != TagAtATime(w)
  {
    CloseEndsInClose(w);
    UnclosedPast(w, n);
    TagAtATimeKeepsUnclosed(w);
    VisibleIsLost(w);
    if OnePass(w[n..]) == TagAtATime(w) {
      OnePassIsShorter(w[n..]);
    }
  }

  lemma {:induction false} OnePassAgreesIff(s: string)
    ensures OnePass(s) == TagAtATime(s) <==> HiddenAreFollowed(s)
    decreases |s|
  {
    if s == "" {
    } else if StartsTag(s) {
      var t := TagOf(s);
      var w := s[|t|..];
      assert s == t + w;
      OnePassAgreesIff(w);
      if CleanTag(t) {
        CleanTagStep(t, w);
        if OnePass(w) != TagAtATime(w) {
          SameHead(RenderTag(t), OnePass(w), TagAtATime(w));
        }
      } else {
        HidingTagAgrees(s);
      }
    } else if s[0] != '<' {
      PlainCharStep(s);
      OnePassAgreesIff(s[1..]);
      if OnePass(s[1..]) != TagAtATime(s[1..]) {
        SameHead([s[0]], OnePass(s[1..]), TagAtATime(s[1..]));
      }
    } else {
      NoCloseCopies(s);
      NoCloseIsFollowed(s);
    }
  }

  lemma {:induction false} NoCloseIsFollowed(s: string)
    requires '>' !in s
    ensures HiddenAreFollowed(s)
    decreases |s|
  {
    if s != "" {
      NoCloseIsFollowed(s[1..]);
    }
  }

  /** The five passes translate the input one tag at a time if and only if every tag that hides a
      formatting tag at its end is directly followed by a tag that is not a formatting tag. */
  lemma AgreesIff(html: string)
    ensures HtmlToMarkdown(html) == TagAtATime(html) <==> HiddenAreFollowed(html)
  {
    FivePassesAreOnePass(html);
    OnePassAgreesIff(html);
  }

  /** No `<` stands between a `<` and the `>` that closes it. */
  ghost predicate NoNestedOpen(s: string) {
    forall i, j, k :: 0 <= i < j < k < |s| && s[i] == '<' && s[j] == '<' && s[k] == '>' ==> '>' in s[i..j]
  }

  lemma NoNestedOpenSuffix(s: string, n: nat)
    requires NoNestedOpen(s) && n <= |s|
    ensures NoNestedOpen(s[n..])
  {
    var t := s[n..];
    forall i, j, k | 0 <= i < j < k < |t| && t[i] == '<' && t[j] == '<' && t[k] == '>'
      ensures '>' in t[i..j]
    {
      assert s[n + i] == t[i] && s[n + j] == t[j] && s[n + k] == t[k];
      assert t[i..j] == s[n + i..n + j];
    }
  }

  lemma {:induction false} NoNestedOpenIsClean(s: string)
    requires NoNestedOpen(s)
    ensures Clean(s)
    decreases |s|
  {
    if s == "" {
    } else if StartsTag(s) {
      var t := TagOf(s);
      forall r | r in FORMATTING && EndsWith(t, r.from)
        ensures t == r.from
      {
        FormattingRules(r);
        HeadedFormatting(r);
        var j := |t| - |r.from|;
        assert t[j] == r.from[0] && s[j] == t[j];
        assert s[0..j] == t[..|t| - 1][..j];
        assert s[|t| - 1] == '>';
        assert '>' !in s[0..j];
        assert j == 0;
      }
      NoNestedOpenSuffix(s, |t|);
      NoNestedOpenIsClean(s[|t|..]);
    } else {
      NoNestedOpenSuffix(s, 1);
      NoNestedOpenIsClean(s[1..]);
    }
  }

  /** Without nested `<` the five passes are a tag-at-a-time translation. */
  lemma MultiPassRefinesSinglePass(html: string)
    requires NoNestedOpen(html)
    ensures HtmlToMarkdown(html) == TagAtATime(html)
  {
    NoNestedOpenIsClean(html);
    CleanAgrees(html);
    FivePassesAreOnePass(html);
  }
}
