/** Solution text: escaped control characters are restored and bare code fences get a language label. */
module Fences {
  import opened Strings
  import opened Replace

  function RemoveNewLines(text: string, languageSlug: string): string {
    var out := ReplaceAll(Literal("\\n"), "\n", text);
    var out := ReplaceAll(Literal("\\r"), "\r", out);
    var out := ReplaceAll(Literal("\\t"), "\t", out);
    ReplaceAll(BareFence, "```" + languageSlug, out)
  }

  const NEWLINE := Rule("\\n", "\n")
  const RETURN := Rule("\\r", "\r")
  const TAB := Rule("\\t", "\t")
  const ESCAPES := [NEWLINE, RETURN, TAB]

  predicate IsEscape(r: Rule) {
    r == NEWLINE || r == RETURN || r == TAB
  }

  lemma EscapeRules(r: Rule)
    ensures r in ESCAPES <==> IsEscape(r)
    ensures IsEscape(r) ==> Headed(r, '\\') && |r.from| == 2 && |r.to| == 1 && r.to[0] !in r.from
  {
    assert ESCAPES[0] == NEWLINE && ESCAPES[1] == RETURN && ESCAPES[2] == TAB;
  }

  lemma EscapesAreIndependent()
    ensures Independent(ESCAPES, '\\')
  {
    forall r | r in ESCAPES
      ensures Headed(r, '\\')
    {
      EscapeRules(r);
    }
    forall r, q | r in ESCAPES && q in ESCAPES
      ensures Apart(r, q)
    {
      EscapeRules(r);
      EscapeRules(q);
      if r.from <= q.from {
        assert r.from[1] == q.from[1];
      }
    }
  }

  /** The text with every control escape restored, in one scan. */
  function Unescaped(s: string): string {
    Simultaneous(ESCAPES, s)
  }

  function Label(s: string, slug: string): string {
    ReplaceAll(BareFence, "```" + slug, s)
  }

  lemma EscapePassesFuse(text: string, slug: string)
    ensures RemoveNewLines(text, slug) == Label(Unescaped(text), slug)
  {
    var a, b := [NEWLINE], [NEWLINE, RETURN];
    assert ESCAPES[..2] == b && b[..1] == a && a[..0] == [];
    assert Passes([], text) == text;
    var s1 := ReplaceAll(Literal("\\n"), "\n", text);
    assert Passes(a, text) == s1;
    var s2 := ReplaceAll(Literal("\\r"), "\r", s1);
    assert Passes(b, text) == s2;
    assert Passes(ESCAPES, text) == ReplaceAll(Literal("\\t"), "\t", s2);
    EscapesAreIndependent();
    PassesAreSimultaneous(ESCAPES, '\\', text);
  }

  /** The slugs of the language table: non-empty words. */
  predicate WordSlug(slug: string) {
    slug != "" && forall c :: c in slug ==> IsWordChar(c)
  }

  predicate FenceAt(s: string, i: nat) {
    i + 3 <= |s| && s[i..i + 3] == "```"
  }

  /** Every occurrence of three backticks, overlapping ones included, is followed by a word character. */
  ghost predicate FencesLabelled(s: string) {
    forall i: nat :: FenceAt(s, i) ==> i + 3 < |s| && IsWordChar(s[i + 3])
  }

  /** No escaped newline, return or tab occurs. */
  ghost predicate EscapeFree(s: string) {
    forall i, r :: 0 <= i < |s| && r in ESCAPES ==> !(r.from <= s[i..])
  }

  lemma BareAt(s: string, i: nat)
    requires i < |s|
    ensures MatchLen(BareFence, s[i..]) == 0 <==>
            (FenceAt(s, i) ==> i + 3 < |s| && IsWordChar(s[i + 3]))
  {
    var t := s[i..];
    if i + 3 <= |s| {
      assert t[..3] == s[i..i + 3];
      assert "```" <= t <==> s[i..i + 3] == "```";
    }
  }

  lemma LabelledIsNoMatch(s: string)
    ensures FencesLabelled(s) <==> NoMatchBefore(BareFence, s, |s|)
  {
    forall i: nat | i < |s|
      ensures MatchLen(BareFence, s[i..]) == 0 <==>
              (FenceAt(s, i) ==> i + 3 < |s| && IsWordChar(s[i + 3]))
    {
      BareAt(s, i);
    }
    if NoMatchBefore(BareFence, s, |s|) {
      forall i: nat | FenceAt(s, i)
        ensures i + 3 < |s| && IsWordChar(s[i + 3])
      {
        assert MatchLen(BareFence, s[i..]) == 0;
      }
    }
  }

  // ----- labelling -----

  lemma LabelHit(s: string, slug: string)
    requires MatchLen(BareFence, s) > 0
    ensures |s| >= 3 && Label(s, slug) == ("```" + slug) + Label(s[3..], slug)
  {
  }

  lemma LabelCopy(s: string, slug: string)
    requires s != "" && MatchLen(BareFence, s) == 0
    ensures Label(s, slug) == [s[0]] + Label(s[1..], slug)
  {
  }

  /** Labelling keeps the first character. */
  lemma LabelKeepsHead(s: string, slug: string)
    requires s != ""
    ensures Label(s, slug) != "" && Label(s, slug)[0] == s[0]
  {
    if MatchLen(BareFence, s) > 0 {
      LabelHit(s, slug);
    } else {
      LabelCopy(s, slug);
    }
  }

  /** Number of backticks at the front. */
  function Ticks(s: string): (n: nat)
    ensures n <= |s| && (forall i :: 0 <= i < n ==> s[i] == '`') && (n < |s| ==> s[n] != '`')
  {
    if s == "" || s[0] != '`' then 0 else 1 + Ticks(s[1..])
  }

  lemma BareByTicks(s: string)
    ensures MatchLen(BareFence, s) > 0 <==> Ticks(s) > 3 || (Ticks(s) == 3 && (|s| == 3 || !IsWordChar(s[3])))
  {
    if |s| >= 3 {
      assert s[..3] == [s[0], s[1], s[2]];
    }
  }

  /** A short run of backticks, or three before a word, is copied as it stands. */
  lemma {:induction false} LabelKeepsRun(s: string, slug: string)
    requires MatchLen(BareFence, s) == 0
    ensures Ticks(Label(s, slug)) == Ticks(s)
    ensures Ticks(s) < |s| ==> Ticks(s) < |Label(s, slug)| && Label(s, slug)[Ticks(s)] == s[Ticks(s)]
    ensures Ticks(s) == |s| ==> Label(s, slug) == s
    decreases |s|
  {
    if s != "" {
      LabelCopy(s, slug);
      if s[0] == '`' {
        var t := s[1..];
        BareByTicks(s);
        BareByTicks(t);
        LabelKeepsRun(t, slug);
        RunCons(Label(t, slug));
      }
    }
  }

  lemma RunCons(s: string)
    ensures Ticks("`" + s) == 1 + Ticks(s)
  {
    assert ("`" + s)[1..] == s;
  }

  lemma LabelHeadIsLabelled(s: string, slug: string)
    requires MatchLen(BareFence, s) == 0
    ensures MatchLen(BareFence, Label(s, slug)) == 0
  {
    BareByTicks(s);
    LabelKeepsRun(s, slug);
    BareByTicks(Label(s, slug));
  }

  lemma InsertedIsLabelled(slug: string, rest: string, i: nat)
    requires WordSlug(slug) && i < 3 + |slug|
    ensures MatchLen(BareFence, (("```" + slug) + rest)[i..]) == 0
  {
    var out := ("```" + slug) + rest;
    assert out[3] == slug[0] && slug[0] in slug;
    if i >= 3 {
      assert out[i] == slug[i - 3] && slug[i - 3] in slug;
      assert out[i..][0] == out[i];
    } else {
      assert out[i..][3 - i] == out[3];
    }
  }

  lemma {:induction false} LabelLeavesNoMatch(s: string, slug: string, i: nat)
    requires WordSlug(slug) && i < |Label(s, slug)|
    ensures MatchLen(BareFence, Label(s, slug)[i..]) == 0
    decreases |s|
  {
    if MatchLen(BareFence, s) > 0 {
      LabelHit(s, slug);
      var rest := Label(s[3..], slug);
      if i < 3 + |slug| {
        InsertedIsLabelled(slug, rest, i);
      } else {
        DropPast("```" + slug, rest, i - 3 - |slug|);
        LabelLeavesNoMatch(s[3..], slug, i - 3 - |slug|);
      }
    } else if i == 0 {
      LabelHeadIsLabelled(s, slug);
      assert Label(s, slug)[0..] == Label(s, slug);
    } else {
      LabelCopy(s, slug);
      DropPast([s[0]], Label(s[1..], slug), i - 1);
      LabelLeavesNoMatch(s[1..], slug, i - 1);
    }
  }

  lemma EscapeFreeTail(s: string, n: nat)
    requires EscapeFree(s) && n <= |s|
    ensures EscapeFree(s[n..])
  {
    forall i, r | 0 <= i < |s[n..]| && r in ESCAPES
      ensures !(r.from <= s[n..][i..])
    {
      assert s[n..][i..] == s[n + i..];
    }
  }

  lemma {:induction false} LabelKeepsEscapeFree(s: string, slug: string, r: Rule, i: nat)
    requires WordSlug(slug) && EscapeFree(s) && r in ESCAPES && i < |Label(s, slug)|
    ensures !(r.from <= Label(s, slug)[i..])
    decreases |s|
  {
    EscapeRules(r);
    if MatchLen(BareFence, s) > 0 {
      LabelHit(s, slug);
      var rest := Label(s[3..], slug);
      if i < 3 + |slug| {
        InsertedHasNoBackslash(slug, rest, i);
      } else {
        DropPast("```" + slug, rest, i - 3 - |slug|);
        EscapeFreeTail(s, 3);
        LabelKeepsEscapeFree(s[3..], slug, r, i - 3 - |slug|);
      }
    } else {
      LabelCopy(s, slug);
      var rest := Label(s[1..], slug);
      if i > 0 {
        DropPast([s[0]], rest, i - 1);
        EscapeFreeTail(s, 1);
        LabelKeepsEscapeFree(s[1..], slug, r, i - 1);
      } else {
        if |s| > 1 {
          LabelKeepsHead(s[1..], slug);
        }
        assert !(r.from <= s[0..]) && s[0..] == s;
        assert Label(s, slug)[0..] == [s[0]] + rest;
      }
    }
  }

  lemma InsertedHasNoBackslash(slug: string, rest: string, i: nat)
    requires WordSlug(slug) && i < 3 + |slug|
    ensures var out := ("```" + slug) + rest; out[i..] != "" && out[i..][0] != '\\'
  {
    var out := ("```" + slug) + rest;
    assert i >= 3 ==> out[i] == slug[i - 3] && slug[i - 3] in slug;
  }

  lemma UnescapedIsEscapeFree(s: string)
    ensures EscapeFree(Unescaped(s))
  {
    EscapesAreIndependent();
    forall i, r | 0 <= i < |Unescaped(s)| && r in ESCAPES
      ensures !(r.from <= Unescaped(s)[i..])
    {
      ScanLeavesNoMatch(ESCAPES, '\\', s, r, i);
    }
  }

  /** In the result no control escape is left and every fence is labelled. */
  lemma Cleaned(text: string, slug: string)
    requires WordSlug(slug)
    ensures EscapeFree(RemoveNewLines(text, slug)) && FencesLabelled(RemoveNewLines(text, slug))
  {
    EscapePassesFuse(text, slug);
    var u := Unescaped(text);
    var out := Label(u, slug);
    UnescapedIsEscapeFree(text);
    forall i, r | 0 <= i < |out| && r in ESCAPES
      ensures !(r.from <= out[i..])
    {
      LabelKeepsEscapeFree(u, slug, r, i);
    }
    forall i | 0 <= i < |out|
      ensures MatchLen(BareFence, out[i..]) == 0
    {
      LabelLeavesNoMatch(u, slug, i);
    }
    LabelledIsNoMatch(out);
  }

  lemma EscapeFreeIsFixed(s: string, r: Rule)
    requires EscapeFree(s) && r in ESCAPES
    ensures ReplaceAll(Literal(r.from), r.to, s) == s
  {
    NoMatch(Literal(r.from), r.to, s);
  }

  /** Text that is already clean passes through unchanged, whatever the slug. */
  lemma CleanIsFixed(s: string, slug: string)
    requires EscapeFree(s) && FencesLabelled(s)
    ensures RemoveNewLines(s, slug) == s
  {
    EscapeRules(NEWLINE);
    EscapeRules(RETURN);
    EscapeRules(TAB);
    EscapeFreeIsFixed(s, NEWLINE);
    EscapeFreeIsFixed(s, RETURN);
    EscapeFreeIsFixed(s, TAB);
    LabelledIsNoMatch(s);
    NoMatch(BareFence, "```" + slug, s);
  }

  /** Idempotence, even when the second pass is given another language. */
  lemma Idempotent(text: string, slug: string, other: string)
    requires WordSlug(slug)
    ensures RemoveNewLines(RemoveNewLines(text, slug), other) == RemoveNewLines(text, slug)
  {
    Cleaned(text, slug);
    CleanIsFixed(RemoveNewLines(text, slug), other);
  }

  // ----- round trip of the control characters -----

  function EscapeControl(s: string): string {
    if s == "" then ""
    else
      (if s[0] == '\n' then "\\n" else if s[0] == '\r' then "\\r" else if s[0] == '\t' then "\\t" else [s[0]])
      + EscapeControl(s[1..])
  }

  lemma EscapeStep(r: Rule, s: string)
    requires IsEscape(r)
    ensures Unescaped(r.from + s) == r.to + Unescaped(s)
  {
    EscapesAreIndependent();
    EscapeRules(r);
    RuleFires(ESCAPES, '\\', r, r.from + s);
    DropPast(r.from, s, 0);
  }

  /** Where no control escape starts, none starts after the control characters are escaped. */
  lemma EscapeStartsNothing(s: string)
    requires EscapeFree(s) && s != "" && s[0] == '\\'
    ensures !AnyFires(ESCAPES, "\\" + EscapeControl(s[1..]))
  {
    var e := EscapeControl(s[1..]);
    assert s[0..] == s;
    assert e != "" ==> e[0] == '\\' || e[0] == s[1];
    forall r | r in ESCAPES
      ensures !(r.from <= "\\" + e)
    {
      EscapeRules(r);
      assert !(r.from <= s[0..]);
    }
  }

  lemma {:induction false} UnescapeEscape(s: string)
    requires EscapeFree(s)
    ensures Unescaped(EscapeControl(s)) == s
    decreases |s|
  {
    if s != "" {
      var c, t := s[0], s[1..];
      assert s == [c] + t;
      EscapeFreeTail(s, 1);
      UnescapeEscape(t);
      var e := EscapeControl(t);
      if c == '\n' {
        EscapeStep(NEWLINE, e);
      } else if c == '\r' {
        EscapeStep(RETURN, e);
      } else if c == '\t' {
        EscapeStep(TAB, e);
      } else if c == '\\' {
        EscapeStartsNothing(s);
        CopyChar(ESCAPES, "\\" + e);
        DropPast("\\", e, 0);
      } else {
        EscapesAreIndependent();
        CopyPlain(ESCAPES, '\\', [c], e);
      }
    }
  }

  /** Text whose control characters were escaped comes back exactly if and only if it was clean. */
  lemma ControlRoundTripIff(s: string, slug: string)
    requires WordSlug(slug)
    ensures RemoveNewLines(EscapeControl(s), slug) == s <==> EscapeFree(s) && FencesLabelled(s)
  {
    var e := EscapeControl(s);
    Cleaned(e, slug);
    if EscapeFree(s) && FencesLabelled(s) {
      EscapePassesFuse(e, slug);
      UnescapeEscape(s);
      LabelledIsNoMatch(s);
      NoMatch(BareFence, "```" + slug, s);
    }
  }

  lemma {:induction false} LabelKeepsEscape(s: string, slug: string, r: Rule, i: nat) returns (j: nat)
    requires r in ESCAPES && i < |s| && r.from <= s[i..]
    ensures j < |Label(s, slug)| && r.from <= Label(s, slug)[j..]
    decreases |s|
  {
    EscapeRules(r);
    if MatchLen(BareFence, s) > 0 {
      LabelHit(s, slug);
      assert forall k :: 0 <= k < 3 ==> s[k] == '`' && s[k..][0] == s[k];
      var rest := Label(s[3..], slug);
      DropTwice(s, 3, i - 3);
      j := LabelKeepsEscape(s[3..], slug, r, i - 3);
      DropPast("```" + slug, rest, j);
      j := 3 + |slug| + j;
    } else {
      LabelCopy(s, slug);
      var rest := Label(s[1..], slug);
      if i == 0 {
        assert s[0..] == s && s[1] == r.from[1];
        LabelKeepsHead(s[1..], slug);
        j := 0;
        assert Label(s, slug)[0..] == [s[0]] + rest;
      } else {
        DropTwice(s, 1, i - 1);
        j := LabelKeepsEscape(s[1..], slug, r, i - 1);
        DropPast([s[0]], rest, j);
        j := 1 + j;
      }
    }
  }

  /** It comes back up to fence labels if and only if it had no control escape of its own. */
  lemma ControlRoundTripUpToLabels(s: string, slug: string)
    requires WordSlug(slug)
    ensures RemoveNewLines(EscapeControl(s), slug) == Label(s, slug) <==> EscapeFree(s)
  {
    var e := EscapeControl(s);
    if EscapeFree(s) {
      EscapePassesFuse(e, slug);
      UnescapeEscape(s);
    } else {
      var i, r :| 0 <= i < |s| && r in ESCAPES && r.from <= s[i..];
      var j := LabelKeepsEscape(s, slug, r, i);
      Cleaned(e, slug);
    }
  }

  // ----- escapes and fences by character -----

  lemma UnescapeKeepsPlain(w: string, t: string)
    requires '\\' !in w
    ensures Unescaped(w + t) == w + Unescaped(t)
  {
    EscapesAreIndependent();
    CopyPlain(ESCAPES, '\\', w, t);
  }

  lemma LabelKeepsPlain(c: char, t: string, slug: string)
    requires c != '`'
    ensures Label([c] + t, slug) == [c] + Label(t, slug)
  {
    BareByTicks([c] + t);
    LabelCopy([c] + t, slug);
    DropPast([c], t, 0);
  }

  lemma EscapeBecomes(r: Rule, c: char, t: string, slug: string)
    requires IsEscape(r) && r.to == [c] && c != '`'
    ensures RemoveNewLines(r.from + t, slug) == [c] + RemoveNewLines(t, slug)
  {
    EscapePassesFuse(r.from + t, slug);
    EscapePassesFuse(t, slug);
    EscapeStep(r, t);
    LabelKeepsPlain(c, Unescaped(t), slug);
  }

  /** The three control escapes, one by one, before any text. */
  lemma EscapesByLetter(t: string, slug: string)
    ensures RemoveNewLines("\\n" + t, slug) == "\n" + RemoveNewLines(t, slug)
    ensures RemoveNewLines("\\r" + t, slug) == "\r" + RemoveNewLines(t, slug)
    ensures RemoveNewLines("\\t" + t, slug) == "\t" + RemoveNewLines(t, slug)
  {
    EscapeBecomes(NEWLINE, '\n', t, slug);
    EscapeBecomes(RETURN, '\r', t, slug);
    EscapeBecomes(TAB, '\t', t, slug);
  }

  lemma FenceInFront(c: char, u: string, slug: string)
    requires c != '`'
    ensures var out := Label("```" + ([c] + u), slug);
            out == (if IsWordChar(c) then "```" else "```" + slug) + ([c] + Label(u, slug))
  {
    var s := "```" + ([c] + u);
    LabelKeepsPlain(c, u, slug);
    assert s[3] == c && s[3..] == [c] + u;
    if IsWordChar(c) {
      assert s[1..] == "``" + ([c] + u) && s[1..][1..] == "`" + ([c] + u) && s[1..][1..][1..] == [c] + u;
      LabelCopy(s, slug);
      LabelCopy(s[1..], slug);
      LabelCopy(s[1..][1..], slug);
    } else {
      LabelHit(s, slug);
    }
  }

  lemma FenceAndCharacter(c: char, t: string, slug: string) returns (u: string)
    requires c != '`' && (c == '\\' ==> t == "" || (t[0] != 'n' && t[0] != 'r' && t[0] != 't'))
    ensures RemoveNewLines("```" + ([c] + t), slug) == (if IsWordChar(c) then "```" else "```" + slug) + ([c] + u)
  {
    var s := "```" + ([c] + t);
    EscapePassesFuse(s, slug);
    UnescapeKeepsPlain("```", [c] + t);
    if c == '\\' {
      LoneBackslash(t);
    } else {
      UnescapeKeepsPlain([c], t);
    }
    FenceInFront(c, Unescaped(t), slug);
    u := Label(Unescaped(t), slug);
  }

  lemma LoneBackslash(t: string)
    requires t == "" || (t[0] != 'n' && t[0] != 'r' && t[0] != 't')
    ensures Unescaped("\\" + t) == "\\" + Unescaped(t)
  {
    var s := "\\" + t;
    forall r | r in ESCAPES
      ensures !(r.from <= s)
    {
      EscapeRules(r);
      assert t != "" ==> s[1] == t[0];
    }
    CopyChar(ESCAPES, s);
    DropPast("\\", t, 0);
  }

  /** A fence directly before a letter, a digit or an underscore is left alone. */
  lemma FenceBeforeWord(c: char, t: string, slug: string)
    requires 'A' <= c <= 'Z' || 'a' <= c <= 'z' || '0' <= c <= '9' || c == '_'
    ensures "```" + [c] <= RemoveNewLines("```" + ([c] + t), slug)
  {
    var u := FenceAndCharacter(c, t, slug);
    assert "```" + ([c] + u) == ("```" + [c]) + u;
  }

  /** A fence before any other character, and a fence at the end, gets the slug. */
  lemma FenceBeforeOther(c: char, t: string, slug: string)
    requires !('A' <= c <= 'Z') && !('a' <= c <= 'z') && !('0' <= c <= '9') && c != '_' && c != '`'
    requires c == '\\' ==> t == "" || (t[0] != 'n' && t[0] != 'r' && t[0] != 't')
    ensures "```" + slug + [c] <= RemoveNewLines("```" + ([c] + t), slug)
    ensures RemoveNewLines("```", slug) == "```" + slug
  {
    var u := FenceAndCharacter(c, t, slug);
    assert ("```" + slug) + ([c] + u) == ("```" + slug + [c]) + u;
    EscapePassesFuse("```", slug);
    UnescapeKeepsPlain("```", "");
    assert "```" + "" == "```";
    LabelHit("```", slug);
    assert ("```" + slug) + "" == "```" + slug;
  }

  // ----- nothing else is changed -----

  function Joined(pieces: seq<string>, glue: string): string {
    if pieces == [] then ""
    else if |pieces| == 1 then pieces[0]
    else pieces[0] + (glue + Joined(pieces[1..], glue))
  }

  /** The pieces are cut right after each bare fence, leftmost first, and nowhere else. */
  ghost predicate CutAtBareFences(pieces: seq<string>)
    decreases |pieces|
  {
    && pieces != []
    && if |pieces| == 1 then NoMatchBefore(BareFence, pieces[0], |pieces[0]|)
       else
         var n, s := |pieces[0]| - 3, Joined(pieces, "");
         && 0 <= n <= |s|
         && NoMatchBefore(BareFence, s, n)
         && MatchLen(BareFence, s[n..]) == 3
         && CutAtBareFences(pieces[1..])
  }

  lemma PrependToPieces(c: char, ps: seq<string>, glue: string)
    requires ps != []
    ensures Joined([[c] + ps[0]] + ps[1..], glue) == [c] + Joined(ps, glue)
  {
    var qs := [[c] + ps[0]] + ps[1..];
    assert qs[1..] == ps[1..];
    if |ps| > 1 {
      Associate([c], ps[0], glue + Joined(ps[1..], glue));
    }
  }

  lemma PrependKeepsCuts(c: char, ps: seq<string>)
    requires CutAtBareFences(ps) && MatchLen(BareFence, [c] + Joined(ps, "")) == 0
    ensures CutAtBareFences([[c] + ps[0]] + ps[1..])
  {
    var qs, s := [[c] + ps[0]] + ps[1..], Joined(ps, "");
    PrependToPieces(c, ps, "");
    assert qs[1..] == ps[1..];
    var t := [c] + s;
    var n := if |ps| == 1 then |s| else |ps[0]| - 3;
    assert t[1 + n..] == s[n..];
    forall i | 0 <= i < 1 + n
      ensures MatchLen(BareFence, t[i..]) == 0
    {
      if i == 0 {
        assert t[0..] == t;
      } else {
        DropPast([c], s, i - 1);
      }
    }
  }

  lemma FenceBeforePieces(ps: seq<string>, glue: string)
    requires ps != []
    ensures Joined(["```"] + ps, glue) == "```" + (glue + Joined(ps, glue))
  {
    assert (["```"] + ps)[1..] == ps;
  }

  lemma FenceKeepsCuts(ps: seq<string>)
    requires CutAtBareFences(ps) && MatchLen(BareFence, "```" + Joined(ps, "")) == 3
    ensures CutAtBareFences(["```"] + ps)
  {
    var qs := ["```"] + ps;
    FenceBeforePieces(ps, "");
    assert qs[1..] == ps && qs[0] == "```";
    assert "" + Joined(ps, "") == Joined(ps, "");
    assert Joined(qs, "")[0..] == Joined(qs, "");
  }

  lemma {:induction false} LabelJoins(s: string, slug: string) returns (pieces: seq<string>)
    ensures CutAtBareFences(pieces) && Joined(pieces, "") == s && Joined(pieces, slug) == Label(s, slug)
    decreases |s|
  {
    if s == "" {
      pieces := [""];
    } else if MatchLen(BareFence, s) > 0 {
      LabelHit(s, slug);
      var ps := LabelJoins(s[3..], slug);
      pieces := ["```"] + ps;
      assert s == "```" + s[3..];
      FenceKeepsCuts(ps);
      FenceBeforePieces(ps, "");
      FenceBeforePieces(ps, slug);
      assert "" + s[3..] == s[3..];
      Associate("```", slug, Label(s[3..], slug));
    } else {
      LabelCopy(s, slug);
      var ps := LabelJoins(s[1..], slug);
      assert s == [s[0]] + s[1..];
      PrependToPieces(s[0], ps, "");
      PrependToPieces(s[0], ps, slug);
      PrependKeepsCuts(s[0], ps);
      pieces := [[s[0]] + ps[0]] + ps[1..];
    }
  }

  /** The whole effect: control escapes are restored, and the slug is inserted after each bare fence
      and nowhere else; leaving the slugs out again gives the restored text. */
  lemma OnlyLabelsAdded(text: string, slug: string) returns (pieces: seq<string>)
    ensures CutAtBareFences(pieces)
    ensures Joined(pieces, "") == Unescaped(text) && Joined(pieces, slug) == RemoveNewLines(text, slug)
  {
    EscapePassesFuse(text, slug);
    pieces := LabelJoins(Unescaped(text), slug);
  }
}
