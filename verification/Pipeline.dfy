/** The whole problem-text pipeline, decoding after tag translation, preserves the meaning of every
    well-formed document. */
module Pipeline {
  import opened Strings
  import opened Markdown
  import opened TagTranslation
  import D = Decoder

  /** Problem text as LeetCode writes it: character data with `&`, `<` and `>` spelled as entities,
      and tags without angle brackets inside. */
  datatype Token = Text(pieces: seq<D.Piece>) | Tag(body: string)

  predicate ValidPiece(p: D.Piece) {
    p.Raw? ==> p.c != '&' && p.c != '<' && p.c != '>'
  }

  predicate ValidToken(t: Token) {
    match t
    case Text(ps) => forall p :: p in ps ==> ValidPiece(p)
    case Tag(body) => '<' !in body && '>' !in body
  }

  predicate Valid(ts: seq<Token>) {
    forall t :: t in ts ==> ValidToken(t)
  }

  function TagText(body: string): string {
    "<" + body + ">"
  }

  function Serialize(ts: seq<Token>): string {
    if ts == [] then ""
    else (match ts[0] case Text(ps) => D.Encode(ps) case Tag(body) => TagText(body)) + Serialize(ts[1..])
  }

  /** The text itself, backticks for code and pre tags, nothing for other tags. */
  function Render(ts: seq<Token>): string {
    if ts == [] then ""
    else (match ts[0] case Text(ps) => D.Meaning(ps) case Tag(body) => RenderBody(body)) + Render(ts[1..])
  }

  function RenderBody(body: string): string {
    if body == "code" || body == "/code" then "`"
    else if body == "pre" || body == "/pre" then "```"
    else ""
  }

  /** What is left between the two stages. */
  function Translated(ts: seq<Token>): string {
    if ts == [] then ""
    else (match ts[0] case Text(ps) => D.Encode(ps) case Tag(body) => RenderBody(body)) + Translated(ts[1..])
  }

  lemma {:induction false} OnePassCopies(w: string, s: string)
    requires '<' !in w
    ensures OnePass(w + s) == w + OnePass(s)
    decreases |w|
  {
    if w == "" {
      assert w + s == s;
    } else {
      TailOfConcat(w, s);
      PlainCharStep(w + s);
      OnePassCopies(w[1..], s);
      PrependHead(w, w[0], OnePass(s));
    }
  }

  lemma {:induction false} EncodeHasNoOpen(ps: seq<D.Piece>)
    requires forall p :: p in ps ==> ValidPiece(p)
    ensures '<' !in D.Encode(ps)
  {
    if ps != [] {
      EncodeHasNoOpen(ps[1..]);
      assert ValidPiece(ps[0]);
      if ps[0].Coded? {
        CodeHasNoOpen(ps[0].e);
      }
    }
  }

  lemma CodeHasNoOpen(e: D.Entity)
    ensures '<' !in D.Code(e)
  {
  }

  lemma TagTextIsClean(body: string)
    requires '<' !in body && '>' !in body
    ensures IsTag(TagText(body)) && CleanTag(TagText(body))
    ensures RenderTag(TagText(body)) == RenderBody(body)
  {
    var t := TagText(body);
    assert t[..|t| - 1] == "<" + body;
    assert t[1..|t| - 1] == body;
    forall r | r in FORMATTING && EndsWith(t, r.from)
      ensures t == r.from
    {
      FormattingRules(r);
      HeadedFormatting(r);
      OnlyOpenIsFirst(body, |t| - |r.from|);
    }
    TagTextInjective(body);
  }

  lemma OnlyOpenIsFirst(body: string, j: nat)
    requires '<' !in body && j < |TagText(body)| && TagText(body)[j] == '<'
    ensures j == 0
  {
    assert forall k :: 0 < k <= |body| ==> TagText(body)[k] == body[k - 1];
  }

  lemma TagTextInjective(body: string)
    ensures TagText(body) == "<code>" <==> body == "code"
    ensures TagText(body) == "</code>" <==> body == "/code"
    ensures TagText(body) == "<pre>" <==> body == "pre"
    ensures TagText(body) == "</pre>" <==> body == "/pre"
  {
    var t := TagText(body);
    assert t[1..|t| - 1] == body;
    assert "<code>"[1..5] == "code" && "</code>"[1..6] == "/code";
    assert "<pre>"[1..4] == "pre" && "</pre>"[1..5] == "/pre";
  }

  lemma {:induction false} TranslateTokens(ts: seq<Token>)
    requires Valid(ts)
    ensures OnePass(Serialize(ts)) == Translated(ts)
  {
    if ts != [] {
      assert ValidToken(ts[0]);
      TranslateTokens(ts[1..]);
      match ts[0]
      case Text(ps) =>
        EncodeHasNoOpen(ps);
        OnePassCopies(D.Encode(ps), Serialize(ts[1..]));
      case Tag(body) =>
        TagTextIsClean(body);
        CleanTagStep(TagText(body), Serialize(ts[1..]));
    }
  }

  lemma {:induction false} DecodeText(ps: seq<D.Piece>, s: string)
    requires forall p :: p in ps ==> ValidPiece(p)
    ensures D.Decode(D.Encode(ps) + s) == D.Meaning(ps) + D.Decode(s)
  {
    if ps == [] {
      assert D.Encode(ps) + s == s;
    } else {
      var rest := ps[1..];
      DecodeText(rest, s);
      assert ValidPiece(ps[0]);
      match ps[0]
      case Raw(c) =>
        Associate([c], D.Encode(rest), s);
        D.DecodePlain(c, D.Encode(rest) + s);
        Associate([c], D.Meaning(rest), D.Decode(s));
      case Coded(e) =>
        Associate(D.Code(e), D.Encode(rest), s);
        D.DecodeEntity(e, D.Encode(rest) + s);
        Associate([D.CharOf(e)], D.Meaning(rest), D.Decode(s));
    }
  }

  lemma DecodeTicks(body: string, s: string)
    ensures D.Decode(RenderBody(body) + s) == RenderBody(body) + D.Decode(s)
  {
    var ticks := RenderBody(body);
    D.DecodeAfterPlain(ticks, s);
  }

  lemma {:induction false} DecodeTranslated(ts: seq<Token>)
    requires Valid(ts)
    ensures D.Decode(Translated(ts)) == Render(ts)
  {
    if ts != [] {
      assert ValidToken(ts[0]);
      DecodeTranslated(ts[1..]);
      match ts[0]
      case Text(ps) => DecodeText(ps, Translated(ts[1..]));
      case Tag(body) => DecodeTicks(body, Translated(ts[1..]));
    }
  }

  /** Every valid document, however its characters are spelled, comes out as its plain rendering. */
  lemma MeaningPreserved(ts: seq<Token>)
    requires Valid(ts)
    ensures D.Decode(HtmlToMarkdown(Serialize(ts))) == Render(ts)
  {
    FivePassesAreOnePass(Serialize(ts));
    TranslateTokens(ts);
    DecodeTranslated(ts);
  }

  lemma CodeOpens(s: string)
    ensures HtmlToMarkdown("<code>" + s) == "`" + HtmlToMarkdown(s)
  {
    TagBecomes("code", "<code>", s);
  }

  lemma CodeCloses(s: string)
    ensures HtmlToMarkdown("</code>" + s) == "`" + HtmlToMarkdown(s)
  {
    TagBecomes("/code", "</code>", s);
  }

  lemma PreOpens(s: string)
    ensures HtmlToMarkdown("<pre>" + s) == "```" + HtmlToMarkdown(s)
  {
    TagBecomes("pre", "<pre>", s);
  }

  lemma PreCloses(s: string)
    ensures HtmlToMarkdown("</pre>" + s) == "```" + HtmlToMarkdown(s)
  {
    TagBecomes("/pre", "</pre>", s);
  }

  lemma TagBecomes(body: string, tag: string, s: string)
    requires '<' !in body && '>' !in body && tag == "<" + body + ">"
    ensures HtmlToMarkdown(tag + s) == RenderBody(body) + HtmlToMarkdown(s)
  {
    TagTextIsClean(body);
    CleanTagStep(tag, s);
    FivePassesAreOnePass(s);
    FivePassesAreOnePass(tag + s);
  }

  /** Any other tag is dropped, and text outside of tags is kept. */
  lemma OtherTagsAreDropped(body: string, s: string)
    requires '<' !in body && '>' !in body
    requires body != "code" && body != "/code" && body != "pre" && body != "/pre"
    ensures HtmlToMarkdown("<" + body + ">" + s) == HtmlToMarkdown(s)
  {
    TagBecomes(body, "<" + body + ">", s);
  }

  lemma TextIsKept(w: string, s: string)
    requires '<' !in w
    ensures HtmlToMarkdown(w + s) == w + HtmlToMarkdown(s)
  {
    OnePassCopies(w, s);
    FivePassesAreOnePass(s);
    FivePassesAreOnePass(w + s);
  }

  /** Escaped text between two tags is kept exactly. */
  lemma TextKeptExactly(open: string, s: string, close: string)
    requires '<' !in open && '>' !in open && '<' !in close && '>' !in close
    ensures D.Decode(HtmlToMarkdown(TagText(open) + D.Escape(s) + TagText(close)))
         == RenderBody(open) + s + RenderBody(close)
  {
    var ps := D.EscapePieces(s);
    EscapePiecesValid(s);
    D.EscapeEncodes(s);
    var last := [Tag(close)];
    var mid := [Text(ps)] + last;
    var ts := [Tag(open)] + mid;
    MeaningPreserved(ts);
    assert ts[1..] == mid && mid[1..] == last && last[1..] == [];
    assert Serialize(last) == TagText(close) && Render(last) == RenderBody(close);
    assert Serialize(mid) == D.Escape(s) + TagText(close) && Render(mid) == s + RenderBody(close);
    Associate(TagText(open), D.Escape(s), TagText(close));
    Associate(RenderBody(open), s, RenderBody(close));
  }

  lemma {:induction false} EscapePiecesValid(s: string)
    ensures forall p :: p in D.EscapePieces(s) ==> ValidPiece(p)
    decreases |s|
  {
    if s != "" {
      EscapePiecesValid(s[1..]);
    }
  }
}
